/** Files of string settings: what is written and what is read back, line by line. */
module ConfFile {
  import opened Common
  import opened ConfString

  /** Name and value of a string symbol. */
  type Item = (string, string)

  function WriteFile(es: seq<Item>): string {
    if es == [] then [] else Line(es[0].0, es[0].1) + WriteFile(es[1..])
  }

  /** The loop of conf_read_simple: one buffer of text at a time. */
  function ReadFile(f: string): seq<Item>
    decreases |f|
  {
    if f == [] then [] else
    var line := Fgets(f, LINE);
    var e := Entry(line);
    (if e.Some? then [e.value] else []) + ReadFile(f[|line|..])
  }

  /** The value has no newline and the line fits the buffer up to the closing quote. */
  predicate Good(e: Item) {
    '\n' !in e.1 && |e.0| + 3 + |Esc(e.1)| <= LINE - 1
  }

  predicate Writable(e: Item) { NameOk(e.0) && NUL !in e.1 }

  // ---- Text and newlines ----

  function Newlines(s: string): nat {
    if s == [] then 0 else (if s[0] == '\n' then 1 else 0) + Newlines(s[1..])
  }

  lemma {:induction false} NewlinesSum(a: string, b: string)
    ensures Newlines(a + b) == Newlines(a) + Newlines(b)
  {
    if a == [] {
      assert a + b == b;
    } else {
      assert (a + b)[0] == a[0] && (a + b)[1..] == a[1..] + b;
      NewlinesSum(a[1..], b);
    }
  }

  lemma {:induction false} NoNewlines(s: string)
    requires '\n' !in s
    ensures Newlines(s) == 0
  {
    if s != [] { NoNewlines(s[1..]); }
  }

  /** A line that fgets returns is not empty and has a newline at most at its end. */
  lemma Chunk(f: string) returns (text: string, end: bool)
    requires f != []
    ensures var line := Fgets(f, LINE);
      && line != [] && line <= f && '\n' !in text && line == (if end then text + "\n" else text)
      && Newlines(line) == if end then 1 else 0
  {
    var i, line := IndexOf('\n', f), Fgets(f, LINE);
    end := i < |f| && i + 1 <= LINE - 1;
    text := if end then f[..i] else line;
    if end {
      assert f[..i + 1] == f[..i] + "\n";
      NewlinesSum(text, "\n");
    } else {
      assert forall k :: 0 <= k < |line| ==> k < i && line[k] == f[..i][k];
    }
    NoNewlines(text);
  }

  /** The room an item takes in a line, without the newline. */
  function Need(es: seq<Item>): nat {
    if es == [] then 0 else |es[0].0| + 3 + |Esc(es[0].1)| + Need(es[1..])
  }

  /** A text that the reader accepts is at least as long as the escaped value and its quote. */
  lemma {:induction false} ParseRoom(t: string)
    ensures Parse(t).Some? ==> |Esc(Parse(t).value)| + 1 <= |t|
  {
    if t != [] && t[0] != '"' {
      if t[0] != '\\' {
        ParseRoom(t[1..]);
        if Parse(t[1..]).Some? { EscCons(t[0], Parse(t[1..]).value); }
      } else if |t| > 1 {
        ParseRoom(t[2..]);
        if Parse(t[2..]).Some? { EscCons(t[1], Parse(t[2..]).value); }
      }
    }
  }

  lemma EscCons(c: char, s: string)
    ensures |Esc([c] + s)| == |Esc(s)| + if Special(c) then 2 else 1
  {
    assert ([c] + s)[1..] == s;
  }

  lemma EntryRoom(text: string, end: bool)
    requires '\n' !in text
    ensures var line := if end then text + "\n" else text;
      Entry(line).Some? ==> Need([Entry(line).value]) + (if end then 1 else 0) <= |line|
  {
    hide Parse, Esc, Chomp;
    var line := if end then text + "\n" else text;
    var i := IndexOf('=', line);
    if Entry(line).Some? {
      var p := line[i + 1..];
      var w := text[i + 1..];
      assert p == if end then w + "\n" else w;
      ChompText(w);
      var v := Chomp(p);
      ParseRoom(v[1..]);
    }
  }

  /** Whatever is read from a text takes room in it, beside its newlines. */
  lemma {:induction false} Room(f: string)
    ensures Need(ReadFile(f)) + Newlines(f) <= |f|
    decreases |f|
  {
    if f != [] {
      var line := Fgets(f, LINE);
      var text, end := Chunk(f);
      var rest := f[|line|..];
      assert f == line + rest;
      NewlinesSum(line, rest);
      Room(rest);
      EntryRoom(text, end);
      var e := Entry(line);
      if e.Some? {
        assert ([e.value] + ReadFile(rest))[1..] == ReadFile(rest);
      } else {
        assert [] + ReadFile(rest) == ReadFile(rest);
      }
    }
  }

  lemma {:induction false} Written(es: seq<Item>)
    ensures |WriteFile(es)| == Need(es) + |es| && Newlines(WriteFile(es)) >= |es|
  {
    if es != [] {
      Written(es[1..]);
      var line := Line(es[0].0, es[0].1);
      var text := es[0].0 + "=\"" + Esc(es[0].1) + "\"";
      assert line == text + "\n";
      NewlinesSum(text, "\n");
      NewlinesSum(line, WriteFile(es[1..]));
    }
  }

  /** One item and what follows it. */
  lemma ReadHead(e: Item, rest: string)
    requires Writable(e) && Good(e)
    ensures ReadFile(Line(e.0, e.1) + rest) == [e] + ReadFile(rest)
  {
    hide Entry, Esc, ReadFile, Fgets;
    var w := e.0 + "=\"" + Esc(e.1) + "\"";
    ReadBack(e.0, e.1, rest);
    EscNewline(e.1);
    assert '\n' !in w;
    Glue(e.0, Esc(e.1), rest);
    Consumed(w, rest, e);
  }

  lemma Glue(name: string, esc: string, rest: string)
    ensures (name + "=\"" + esc + "\"\n") + rest == (name + "=\"" + esc + "\"") + ("\n" + rest)
    ensures (name + "=\"" + esc + "\"\n") + rest == (name + "=") + ("\"" + esc + "\"\n" + rest)
  {
  }

  /** A line of text that gives one item is consumed together with its newline. */
  lemma Consumed(w: string, rest: string, e: Item)
    requires '\n' !in w && 0 < |w| <= LINE - 1 && Entry(Fgets(w + ("\n" + rest), LINE)) == Some(e)
    ensures ReadFile(w + ("\n" + rest)) == [e] + ReadFile(rest)
  {
    var f := w + ("\n" + rest);
    hide Entry, Fgets, ReadFile;
    assert w < f && f[|w|] == '\n';
    FgetsText(w, f, LINE);
    ReadStep(f);
    if |w| < LINE - 1 {
      assert f[|w + "\n"|..] == rest;
    } else {
      assert f[|w|..] == "\n" + rest;
      EmptyLine(rest);
    }
  }

  lemma ReadStep(f: string)
    requires f != []
    ensures var line := Fgets(f, LINE); var e := Entry(line);
      |line| <= |f| && ReadFile(f) == (if e.Some? then [e.value] else []) + ReadFile(f[|line|..])
  {
  }

  lemma EmptyLine(rest: string)
    ensures ReadFile("\n" + rest) == ReadFile(rest)
  {
    var f := "\n" + rest;
    assert f[0] == '\n' && IndexOf('\n', f) == 0 && Fgets(f, LINE) == "\n" && f[1..] == rest;
    assert Entry("\n").None?;
  }

  /** An item that does not fit the reader loses at least its first line. */
  lemma LoseHead(e: Item, rest: string) returns (line: string, tail: string)
    requires Writable(e) && !Good(e)
    ensures Line(e.0, e.1) + rest == line + tail && |line| >= 3 && Newlines(line) <= 1
    ensures ReadFile(Line(e.0, e.1) + rest) == ReadFile(tail)
  {
    hide Entry, Esc, ReadFile, Fgets;
    var f := Line(e.0, e.1) + rest;
    ReadBack(e.0, e.1, rest);
    var text, end := Chunk(f);
    line := Fgets(f, LINE);
    tail := f[|line|..];
    assert '\n' !in e.0 + "=";
    Glue(e.0, Esc(e.1), rest);
    ThreeLong(e.0 + "=", "\"" + Esc(e.1) + "\"\n" + rest);
    ReadStep(f);
    assert [] + ReadFile(tail) == ReadFile(tail);
  }

  lemma ThreeLong(head: string, more: string)
    requires '\n' !in head && |head| >= 2 && |more| >= 1
    ensures |Fgets(head + more, LINE)| >= 3
  {
    IndexAfter('\n', head, more);
  }

  lemma {:induction false} IndexAfter(c: char, a: string, b: string)
    requires c !in a
    ensures IndexOf(c, a + b) >= |a|
  {
    if a != [] {
      assert (a + b)[0] == a[0] && (a + b)[1..] == a[1..] + b;
      IndexAfter(c, a[1..], b);
    }
  }

  /** A list of settings is read back as that list if and only if every value has no newline and every
      line fits the buffer. */
  lemma {:induction false} RoundTrip(es: seq<Item>)
    requires forall i :: 0 <= i < |es| ==> Writable(es[i])
    ensures ReadFile(WriteFile(es)) == es <==> forall i :: 0 <= i < |es| ==> Good(es[i])
  {
    if es != [] {
      var e, rest := es[0], es[1..];
      assert es == [e] + rest;
      RoundTrip(rest);
      hide Good, Writable, Line, Esc;
      if Good(e) {
        ReadHead(e, WriteFile(rest));
      } else {
        var line, tail := LoseHead(e, WriteFile(rest));
        Room(tail);
        Written(es);
        NewlinesSum(line, tail);
      }
    }
  }

  // ---- What is left of a refused line ----

  /** The boolean case of conf_set_sym_val. */
  function BoolSetting(line: string): Option<(string, bool)> {
    var i := IndexOf('=', line);
    if line == [] || !('A' <= line[0] <= 'Z') || i == |line| then None else
    var v := Chomp(line[i + 1..]);
    if v == [] then None
    else if v[0] == 'y' then Some((line[..i], true))
    else if v[0] == 'n' then Some((line[..i], false)) else None
  }

  /** A value with a setting of another symbol after a newline. */
  function Smuggled(a: string, other: string): string { a + ("\n" + (other + "=y")) }

  lemma SmuggledLine(name: string, a: string, other: string, rest: string)
    requires Plain(a) && Plain(other)
    ensures Line(name, Smuggled(a, other)) + rest == (name + "=\"" + a) + ("\n" + ((other + "=y\"") + ("\n" + rest)))
  {
    var s := Smuggled(a, other);
    assert Plain(s);
    EscPlain(s, "");
    assert s + "" == s && Esc("") == "";
    hide Esc;
  }

  /** The part of a value after a newline is read as a line of its own, and can set another symbol. */
  lemma RemainderSets(name: string, a: string, other: string, rest: string)
    requires NameOk(name) && NameOk(other) && Plain(a) && Plain(other) && '\n' !in a
    requires |name| + 2 + |a| + 1 <= LINE - 1 && |other| + 4 <= LINE - 1
    ensures var f := Line(name, Smuggled(a, other)) + rest;
      var line := Fgets(f, LINE); var next := Fgets(f[|line|..], LINE);
      Entry(line).None? && BoolSetting(next) == Some((other, true))
  {
    hide BoolSetting, Entry, Fgets, Line, Smuggled;
    var t, u := name + "=\"" + a, other + "=y\"";
    SmuggledLine(name, a, other, rest);
    SettingOf(other);
    OpenQuote(name, a);
    assert '\n' !in u;
    TwoLines(t, u, rest);
  }

  lemma TwoLines(t: string, u: string, rest: string)
    requires '\n' !in t && '\n' !in u && |t| + 1 <= LINE - 1 && |u| + 1 <= LINE - 1
    ensures var f := t + ("\n" + (u + ("\n" + rest)));
      Fgets(f, LINE) == t + "\n" && Fgets(f[|t + "\n"|..], LINE) == u + "\n"
  {
    FirstLine(t, u + ("\n" + rest));
    FirstLine(u, rest);
  }

  /** A line with an opening quote only gives no entry. */
  lemma OpenQuote(name: string, a: string)
    requires NameOk(name) && Plain(a) && '\n' !in a
    ensures Entry(name + "=\"" + a + "\n").None?
  {
    EscPlain(a, "");
    assert a + "" == a && Esc("") == "" && a + Esc("") == a;
    var u := name + "=\"" + Esc(a);
    assert u[..|u|] == u;
    CutEntry(name, a, |u|);
  }

  lemma FirstLine(t: string, rest: string)
    requires '\n' !in t && |t| + 1 <= LINE - 1
    ensures Fgets(t + ("\n" + rest), LINE) == t + "\n" && (t + ("\n" + rest))[|t| + 1..] == rest
  {
    hide Fgets;
    var f := t + ("\n" + rest);
    assert t < f && f[|t|] == '\n' && f[|t| + 1..] == rest;
    FgetsText(t, f, LINE);
  }

  lemma SettingOf(other: string)
    requires NameOk(other)
    ensures BoolSetting(other + "=y\"" + "\n") == Some((other, true))
  {
    var v := "=y\"" + "\n";
    var l := other + "=y\"" + "\n";
    assert l == other + v && v[0] == '=';
    IndexUnique('=', other, v);
    assert l[|other| + 1..] == "y\"" + "\n" && l[..|other|] == other;
    ChompText("y\"");
  }
}
