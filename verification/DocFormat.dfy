/**
 The formatting of a pair's value in src/cmd/doc.c, `fixSentence` and then `wikiFormat`, as far as it does not depend on
 what classes are loaded: a reference that names a class becomes an arbitrary text. Its point here is that formatting
 a value twice is not the same as formatting it once.
 */
module DocFormat {
  function Upper(c: char): char {
    if 'a' <= c <= 'z' then c - 32 as char else c
  }

  function TrimStart(s: string, cs: string): string {
    if s != "" && s[0] in cs then TrimStart(s[1..], cs) else s
  }

  function TrimEnd(s: string, cs: string): string {
    if s != "" && s[|s| - 1] in cs then TrimEnd(s[..|s| - 1], cs) else s
  }

  function Trim(s: string, cs: string): string { TrimEnd(TrimStart(s, cs), cs) }

  predicate HasPair(s: string, c: char, d: char) {
    exists i | 0 <= i < |s| - 1 :: s[i] == c && s[i + 1] == d
  }

  /** A capital letter, and a full stop unless there is a closing tag. */
  function FixSentence(s: string): string {
    if s == "" then ""
    else
      var u := [Upper(s[0])] + s[1..];
      if HasPair(u, '<', '/') then Trim(u, " \t\r\n") else Trim(u, " \t\r\n.") + "."
  }

  predicate Space(c: char) { c == ' ' || 9 <= c as int <= 13 }

  /** A word, up to the next space. */
  function Word(s: string): (w: string)
    ensures |w| <= |s|
  {
    if s == "" || Space(s[0]) then "" else [s[0]] + Word(s[1..])
  }

  /** The text for a reference, which is cloned with the space that ends it: for a name without a class, a link within
      the page. */
  function Link(word: string, classLink: string -> string): string {
    var name := if word != "" && word[|word| - 1] == '.' then word[..|word| - 1] else word;
    if '.' in name || HasPair(name, ':', ':') then classLink(word)
    else "<a href='#" + TrimEnd(name, "(), \t") + "'>" + Trim(name, "., \t") + "</a>"
  }

  /** The scan over the text `s`, which stands after the character `prev`. A doubled dollar is one dollar, a single
      one starts a reference, and a backslash takes that meaning away. */
  function Wiki(prev: char, s: string, classLink: string -> string): string
    decreases |s|
  {
    if s == "" then ""
    else if StartsReference(prev, s) then
      var word := Word(s[1..]);
      var rest := s[1 + |word|..];
      if rest == "" then Link(word, classLink) + (if word != "" && word[|word| - 1] == '.' then ". " else " ")
      else Link(word + [rest[0]], classLink) + " " + Wiki(rest[0], rest[1..], classLink)
    else if s[0] == '\n' && |s| > 1 && s[1] == '\n' then "<br/><br/>" + Wiki('\n', s[2..], classLink)
    else if s[0] == '\\' && |s| > 1 && s[1] == '$' && (|s| == 2 || s[2] != '$') then Wiki('\\', s[1..], classLink)
    else if s[0] != '$' then [s[0]] + Wiki(s[0], s[1..], classLink)
    else if |s| > 1 && s[1] == '$' then "$" + Wiki('$', s[1..], classLink)
    else if prev == '$' then Wiki('$', s[1..], classLink)
    else "$" + Wiki('$', s[1..], classLink)
  }

  predicate StartsReference(prev: char, s: string)
    requires s != ""
  {
    s[0] == '$' && !(|s| > 1 && s[1] == '$') && prev != '$' && prev != '\\'
  }

  function Format(s: string, classLink: string -> string): string {
    if s == "" then "" else Wiki('\0', FixSentence(s), classLink)
  }

  predicate Plain(c: char) { c != '$' && c != '\\' && c != '\n' }

  lemma {:induction false} WikiPlain(prev: char, a: string, b: string, classLink: string -> string)
    requires a != "" && forall i | 0 <= i < |a| :: Plain(a[i])
    ensures Wiki(prev, a + b, classLink) == a + Wiki(a[|a| - 1], b, classLink)
    decreases |a|
  {
    var c, rest := a[0], a[1..] + b;
    assert a + b == [c] + rest;
    WikiChar(prev, c, rest, classLink);
    if |a| > 1 {
      WikiPlain(c, a[1..], b, classLink);
      Regrouped(c, a[1..], Wiki(a[|a| - 1], b, classLink));
    } else {
      assert rest == b && a == [c];
    }
  }

  lemma Regrouped(c: char, a: string, b: string)
    ensures [c] + (a + b) == [c] + a + b
  {
  }

  lemma WikiChar(prev: char, c: char, rest: string, classLink: string -> string)
    requires Plain(c)
    ensures Wiki(prev, [c] + rest, classLink) == [c] + Wiki(c, rest, classLink)
  {
    assert ([c] + rest)[1..] == rest;
  }

  const COSTS := "costs $$5 more"
  const COSTS_ONCE := "Costs $5 more."
  const COSTS_TWICE := "Costs <a href='#5'>5</a> more."

  lemma FixCosts()
    ensures FixSentence(COSTS) == "Costs " + "$$5 more."
  {
    var u := "Costs $$5 more";
    assert [Upper(COSTS[0])] + COSTS[1..] == u;
    assert forall i | 0 <= i < |u| :: u[i] != '<';
    TrimNothing(u, " \t\r\n.");
  }

  lemma TrimNothing(s: string, cs: string)
    requires s != "" && s[0] !in cs && s[|s| - 1] !in cs
    ensures Trim(s, cs) == s
  {
  }

  lemma FixCostsAgain()
    ensures FixSentence(COSTS_ONCE) == "Costs " + "$5 more."
  {
    var u, v := COSTS_ONCE, "Costs $5 more";
    assert [Upper(u[0])] + u[1..] == u && u == v + ".";
    assert forall i | 0 <= i < |u| :: u[i] != '<';
    TrimmedAgain(v);
  }

  /** The value is formatted to a text with a single dollar, and then to one with a link. */
  lemma FormattedAgain(classLink: string -> string)
    ensures Format(COSTS, classLink) == COSTS_ONCE && Format(COSTS_ONCE, classLink) == COSTS_TWICE != COSTS_ONCE
  {
    FixCosts();
    FixCostsAgain();
    AfterCosts("$$5 more.", "$5 more.", classLink);
    AfterCosts("$5 more.", "<a href='#5'>5</a> more.", classLink);
    Joined();
  }

  lemma Joined()
    ensures "Costs " + "$5 more." == COSTS_ONCE && "Costs " + "<a href='#5'>5</a> more." == COSTS_TWICE != COSTS_ONCE
  {
    assert |COSTS_TWICE| != |COSTS_ONCE|;
  }

  lemma AfterCosts(s: string, r: string, classLink: string -> string)
    requires (s, r) == ("$$5 more.", "$5 more.") || (s, r) == ("$5 more.", "<a href='#5'>5</a> more.")
    ensures Wiki('\0', "Costs " + s, classLink) == "Costs " + r
  {
    WikiPlain('\0', "Costs ", s, classLink);
    DollarsOnce(classLink);
    DollarTwice(classLink);
  }

  lemma MoreStays(prev: char, classLink: string -> string)
    ensures Wiki(prev, "5 more.", classLink) == "5 more." && Wiki(prev, "more.", classLink) == "more."
  {
    WikiPlain(prev, "5 more.", "", classLink);
    WikiPlain(prev, "more.", "", classLink);
    assert "5 more." + "" == "5 more." && "more." + "" == "more.";
  }

  lemma DollarsOnce(classLink: string -> string)
    ensures Wiki(' ', "$$5 more.", classLink) == "$5 more."
  {
    assert "$$5 more."[1..] == "$5 more." && "$5 more."[1..] == "5 more.";
    MoreStays('$', classLink);
    assert Wiki('$', "$5 more.", classLink) == "5 more.";
  }

  lemma WikiReference(prev: char, s: string, word: string, rest: string, classLink: string -> string)
    requires |s| > 1 && StartsReference(prev, s)
    requires word == Word(s[1..]) && rest == s[1 + |word|..] != ""
    ensures Wiki(prev, s, classLink) == Link(word + [rest[0]], classLink) + " " + Wiki(rest[0], rest[1..], classLink)
  {
  }

  lemma FiveLink(classLink: string -> string)
    ensures Link("5 ", classLink) == "<a href='#5'>5</a>"
  {
    assert "5 "[..1] == "5";
    assert TrimEnd("5", "(), \t") == "5" && TrimEnd("5 ", "(), \t") == "5";
    assert TrimEnd("5", "., \t") == "5" && Trim("5 ", "., \t") == "5";
  }

  lemma FiveParts()
    ensures Word("$5 more."[1..]) == "5" && "$5 more."[2..] == " more."
    ensures " more."[1..] == "more." && "5" + [' '] == "5 "
  {
    assert "$5 more."[1..] == "5 more." && "5 more."[1..] == " more." && Word(" more.") == "";
  }

  lemma DollarTwice(classLink: string -> string)
    ensures Wiki(' ', "$5 more.", classLink) == "<a href='#5'>5</a> more."
  {
    FiveParts();
    WikiReference(' ', "$5 more.", "5", " more.", classLink);
    FiveLink(classLink);
    MoreStays(' ', classLink);
  }

  // ---- Texts that can be formatted again ----

  /** The other rules of the scan, at the start of any text. */
  lemma WikiRules(prev: char, rest: string, classLink: string -> string)
    ensures Wiki(prev, "\n\n" + rest, classLink) == "<br/><br/>" + Wiki('\n', rest, classLink)
    ensures rest == "" || rest[0] != '$' ==> Wiki(prev, "\\$" + rest, classLink) == "$" + Wiki('$', rest, classLink)
    ensures rest == "" || rest[0] != '$' ==> Wiki(prev, "$$" + rest, classLink) == "$" + Wiki('$', rest, classLink)
  {
    assert ("\n\n" + rest)[2..] == rest;
    assert ("\\$" + rest)[1..] == "$" + rest && ("$$" + rest)[1..] == "$" + rest && ("$" + rest)[1..] == rest;
  }

  lemma {:induction false} TrimEndDone(s: string, cs: string)
    ensures TrimEnd(s, cs) <= s
    ensures TrimEnd(s, cs) != "" ==> TrimEnd(s, cs)[|TrimEnd(s, cs)| - 1] !in cs
    ensures forall i | |TrimEnd(s, cs)| <= i < |s| :: s[i] in cs
  {
    if s != "" && s[|s| - 1] in cs {
      TrimEndDone(s[..|s| - 1], cs);
    }
  }

  /** For a text that starts with none of the characters to trim, only its end is trimmed. */
  lemma TrimStays(s: string, cs: string)
    requires s != "" && s[0] !in cs
    ensures Trim(s, cs) == TrimEnd(s, cs) && Trim(s, cs) != "" && Trim(s, cs)[0] == s[0]
  {
    TrimEndDone(s, cs);
  }

  lemma TrimmedAgain(t: string)
    requires t != "" && t[|t| - 1] !in " \t\r\n." && t[0] !in " \t\r\n."
    ensures Trim(t + ".", " \t\r\n.") == t
  {
    var s := t + ".";
    assert s[..|s| - 1] == t && s[|s| - 1] == '.';
    assert TrimEnd(t, " \t\r\n.") == t;
  }

  /** Plain text: no reference, escape, line break or tag. */
  predicate PlainText(v: string) {
    forall i | 0 <= i < |v| :: v[i] != '$' && v[i] != '\\' && v[i] != '\n' && v[i] != '<'
  }

  lemma FixPlain(v: string)
    requires v != "" && PlainText(v) && v[0] != ' ' && v[0] != '\t' && v[0] != '\r' && v[0] != '.'
    ensures var r := FixSentence(v);
            r != "" && PlainText(r) && r[0] == Upper(v[0]) && r[0] !in " \t\r\n." && FixSentence(r) == r
  {
    var u := [Upper(v[0])] + v[1..];
    var t := Trim(u, " \t\r\n.");
    assert forall i | 0 < i < |u| :: u[i] == v[i];
    assert !HasPair(u, '<', '/');
    TrimStays(u, " \t\r\n.");
    TrimEndDone(u, " \t\r\n.");
    var r := t + ".";
    assert FixSentence(v) == r;
    assert forall i | 0 <= i < |t| :: r[i] == u[i];
    assert PlainText(r);
    TrimmedAgain(t);
    assert [Upper(r[0])] + r[1..] == r && !HasPair(r, '<', '/');
  }

  /** A text with a closing tag gets its capital letter only. */
  lemma TaggedKeepsEnd(v: string, i: nat)
    requires i + 1 < |v| && v[i] == '<' && v[i + 1] == '/' && v[0] !in " \t\r\n" && v[|v| - 1] !in " \t\r\n"
    ensures FixSentence(v) == [Upper(v[0])] + v[1..]
  {
    var u := [Upper(v[0])] + v[1..];
    assert u[i] == '<' && u[i + 1] == '/';
    TrimNothing(u, " \t\r\n");
  }

  /** Plain text that does not start with a blank or a full stop can be formatted again: it only gets its capital letter
      and its full stop. */
  lemma PlainStable(v: string, classLink: string -> string)
    requires v != "" && PlainText(v) && v[0] != ' ' && v[0] != '\t' && v[0] != '\r' && v[0] != '.'
    ensures Format(v, classLink) == FixSentence(v) && Format(Format(v, classLink), classLink) == Format(v, classLink)
  {
    FixPlain(v);
    var r := FixSentence(v);
    WikiPlain('\0', r, "", classLink);
    assert r + "" == r;
  }
}
