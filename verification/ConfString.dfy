/** String values in configuration files: the escaping writer and the reader that unescapes in place. */
module ConfString {
  import opened Common

  const NUL := '\0'
  const LINE := 1024         // sizeof(line) in conf_read_simple

  predicate Special(c: char) { c == '"' || c == '\\' }

  /** The escaped form of a string. */
  function Esc(s: string): string {
    if s == [] then [] else (if Special(s[0]) then ['\\', s[0]] else [s[0]]) + Esc(s[1..])
  }

  function Prepend(a: string, r: Option<string>): Option<string> {
    if r.None? then None else Some(a + r.value)
  }

  /** The string up to the first quote that is not escaped; None when there is no such quote. */
  function Parse(t: string): Option<string> {
    if t == [] then None
    else if t[0] == '"' then Some([])
    else if t[0] == '\\' then (if |t| == 1 then None else Prepend([t[1]], Parse(t[2..])))
    else Prepend([t[0]], Parse(t[1..]))
  }

  predicate Plain(a: string) { forall i :: 0 <= i < |a| ==> !Special(a[i]) }

  lemma {:induction false} EscPlain(a: string, s: string)
    requires Plain(a)
    ensures Esc(a + s) == a + Esc(s)
  {
    if a == [] {
      assert a + s == s;
    } else {
      assert (a + s)[0] == a[0] && (a + s)[1..] == a[1..] + s;
      EscPlain(a[1..], s);
    }
  }

  lemma {:induction false} ParsePlain(a: string, t: string)
    requires Plain(a)
    ensures Parse(a + t) == Prepend(a, Parse(t))
  {
    if a == [] {
      assert a + t == t;
      if Parse(t).Some? { assert a + Parse(t).value == Parse(t).value; }
    } else {
      assert (a + t)[0] == a[0] && (a + t)[1..] == a[1..] + t;
      ParsePlain(a[1..], t);
      assert [a[0]] + a[1..] == a;
      Prepended([a[0]], a[1..], Parse(t));
    }
  }

  lemma Prepended(a: string, b: string, r: Option<string>)
    ensures Prepend(a, Prepend(b, r)) == Prepend(a + b, r)
  {
    if r.Some? { assert a + (b + r.value) == (a + b) + r.value; }
  }

  /** Round trip: whatever follows the closing quote, the reader recovers the string. */
  lemma {:induction false} ParseEsc(s: string, rest: string)
    ensures Parse(Esc(s) + ['"'] + rest) == Some(s)
  {
    if s != [] {
      var t := Esc(s[1..]) + ['"'] + rest;
      ParseEsc(s[1..], rest);
      if Special(s[0]) {
        var w := ['\\', s[0]] + Esc(s[1..]) + ['"'] + rest;
        assert w[0] == '\\' && w[1] == s[0] && w[2..] == t;
      } else {
        var w := [s[0]] + Esc(s[1..]) + ['"'] + rest;
        assert w[0] == s[0] && w[1..] == t;
      }
      assert [s[0]] + s[1..] == s;
    } else {
      assert Esc(s) + ['"'] + rest == ['"'] + rest;
    }
  }

  /** Cut off anywhere before the closing quote, the text is refused. */
  lemma {:induction false} ParseCut(s: string, n: nat)
    requires n <= |Esc(s)|
    ensures Parse(Esc(s)[..n]) == None
  {
    if s != [] && n > 0 {
      var t := Esc(s)[..n];
      if Special(s[0]) {
        assert Esc(s)[0] == '\\';
        if n >= 2 {
          assert t[2..] == Esc(s[1..])[..n - 2];
          ParseCut(s[1..], n - 2);
        }
      } else {
        assert t[0] == s[0] && t[1..] == Esc(s[1..])[..n - 1];
        ParseCut(s[1..], n - 1);
      }
    }
  }

  /** b spells v: each character as itself, if it is no special one, or after a backslash. */
  predicate Spells(b: string, v: string) {
    if v == [] then b == []
    else
      || (b != [] && b[0] == v[0] && !Special(v[0]) && Spells(b[1..], v[1..]))
      || (|b| >= 2 && b[0] == '\\' && b[1] == v[0] && Spells(b[2..], v[1..]))
  }

  lemma {:induction false} SpellsParse(b: string, v: string, rest: string)
    requires Spells(b, v)
    ensures Parse(b + ['"'] + rest) == Some(v)
  {
    var t := b + ['"'] + rest;
    if v != [] {
      var n := if b[0] == '\\' then 2 else 1;
      assert b != [] && t[0] == b[0] && t[n..] == b[n..] + ['"'] + rest;
      SpellsParse(b[n..], v[1..], rest);
      assert v == [v[0]] + v[1..];
    }
  }

  lemma {:induction false} ParseSpells(t: string) returns (n: nat)
    requires Parse(t).Some?
    ensures n < |t| && t[n] == '"' && Spells(t[..n], Parse(t).value)
  {
    if t[0] == '"' {
      n := 0;
    } else {
      var m := if t[0] == '\\' then 2 else 1;
      n := ParseSpells(t[m..]);
      n := n + m;
      assert t[..n][m..] == t[m..][..n - m];
      var v := Parse(t).value;
      assert v[1..] == Parse(t[m..]).value;
    }
  }

  /** A text is read as v exactly when it starts with a spelling of v and a closing quote. */
  lemma ParseExact(t: string, v: string)
    ensures Parse(t) == Some(v) <==> exists n: nat :: n < |t| && t[n] == '"' && Spells(t[..n], v)
  {
    hide Parse, Spells;
    if Parse(t) == Some(v) {
      var n := ParseSpells(t);
    }
    forall n: nat | n < |t| && t[n] == '"' && Spells(t[..n], v)
      ensures Parse(t) == Some(v)
    {
      SpellsParse(t[..n], v, t[n + 1..]);
      assert t == t[..n] + ['"'] + t[n + 1..];
    }
  }

  // ---- The writer ----

  /** strcspn(str, "\"\\") */
  method Span(str: string) returns (l: nat)
    ensures l <= |str| && Plain(str[..l]) && (l < |str| ==> Special(str[l]))
  {
    l := 0;
    while l < |str| && !Special(str[l])
      invariant l <= |str| && Plain(str[..l])
    {
      l := l + 1;
    }
  }

  /** The string case of conf_write, between the quotes: chunks without special characters, and one escaped character
      at a time */
  method WriteString(value: string) returns (out: string)
    ensures out == Esc(value)
  {
    out := "";
    var str := value;
    while true
      invariant out + Esc(str) == Esc(value)
      decreases |str|
    {
      var l := Span(str);
      assert str == str[..l] + str[l..];
      EscPlain(str[..l], str[l..]);
      out, str := out + str[..l], str[l..];
      if str == [] { break; }
      out, str := out + ['\\', str[0]], str[1..];
    }
  }

  // ---- The reader ----

  /** buf holds the string t from p on: its characters and a terminator. */
  ghost predicate Holds(buf: seq<char>, p: nat, t: string) {
    p + |t| < |buf| && buf[p..p + |t|] == t && buf[p + |t|] == NUL && NUL !in t
  }

  /** strpbrk(buf + i, "\"\\"): the first special character, or none before the terminator */
  method Find(buf: array<char>, i: nat, ghost t: string) returns (k: nat, found: bool)
    requires Holds(buf[..], i, t)
    ensures i <= k <= i + |t| && Plain(buf[i..k]) && (found ==> k < i + |t| && Special(buf[k]))
    ensures (!found ==> k == i + |t|)
  {
    k := i;
    while buf[k] != NUL && !Special(buf[k])
      invariant i <= k <= i + |t| && Plain(buf[i..k])
      decreases i + |t| - k
    {
      assert buf[k] == t[k - i];
      k := k + 1;
    }
    if k < i + |t| { assert buf[k] == t[k - i]; }
    found := buf[k] != NUL;
  }

  /** memmove(buf + k, buf + k + 1, strlen(buf + k)) */
  method Shift(buf: array<char>, k: nat, n: nat)
    requires k + n < buf.Length
    modifies buf
    ensures buf[..] == old(buf[..k] + buf[k + 1..k + n + 1] + buf[k + n..])
  {
    var i := 0;
    while i < n
      invariant 0 <= i <= n
      invariant forall j :: 0 <= j < buf.Length ==> buf[j] == if k <= j < k + i then old(buf[j + 1]) else old(buf[j])
    {
      buf[k + i] := buf[k + i + 1];
      i := i + 1;
    }
  }

  /** strlen(buf + k) */
  method Length(buf: array<char>, k: nat, ghost t: string) returns (n: nat)
    requires Holds(buf[..], k, t)
    ensures n == |t|
  {
    n := 0;
    while buf[k + n] != NUL
      invariant n <= |t|
      decreases |t| - n
    {
      n := n + 1;
    }
  }

  /** The string case of conf_set_sym_val, after the opening quote: backslashes are removed in place
      and the closing quote becomes the terminator. */
  method Unescape(buf: array<char>, p: nat, ghost t: string) returns (r: Option<string>)
    requires Holds(buf[..], p, t)
    modifies buf
    ensures r == Parse(t)
    ensures r.Some? ==> Holds(buf[..], p, r.value)
  {
    hide Parse, Prepend, Progress, Holds, Plain;
    var p2 := p;
    ghost var rem := t;
    Start(buf[..], p, t);
    while true
      invariant Progress(buf[..], p, p2, rem, t)
      decreases |rem|
    {
      ProgressHolds(buf[..], p, p2, rem, t);
      var k, found := Find(buf, p2, rem);
      Scanned(buf[..], p, p2, rem, t, k);
      ghost var b := rem[k - p2..];
      if !found {
        Missing(buf[..], p, k, b, t);
        return None;
      }
      ProgressHolds(buf[..], p, k, b, t);
      ghost var was := buf[..];
      if buf[k] == '"' {
        Closed(was, p, k, b, t);
        buf[k] := NUL;
        assert buf[..] == was[k := NUL] && buf[p..k] == was[p..k];
        return Some(buf[p..k]);
      }
      var n := Length(buf, k, b);
      Shift(buf, k, n);
      Unescaped(was, buf[..], p, k, b, t);
      p2 := k + 1;
      rem := if |b| == 1 then [] else b[2..];
    }
  }

  /** What has been read so far stands in buf[p..i]; the rest of the text follows from i on. */
  ghost predicate Progress(buf: seq<char>, p: nat, i: nat, rem: string, t: string) {
    && p <= i && Holds(buf, i, rem)
    && Parse(t) == Prepend(buf[p..i], Parse(rem))
    && (Parse(rem).Some? ==> NUL !in buf[p..i])
  }

  lemma Start(buf: seq<char>, p: nat, t: string)
    requires Holds(buf, p, t)
    ensures Progress(buf, p, p, t, t)
  {
    ParsePlain("", t);
    assert "" + t == t && buf[p..p] == "";
  }

  lemma ProgressHolds(buf: seq<char>, p: nat, i: nat, rem: string, t: string)
    requires Progress(buf, p, i, rem, t)
    ensures p <= i && Holds(buf, i, rem) && i + |rem| < |buf| && forall j :: 0 <= j < |rem| ==> buf[i + j] == rem[j]
  {
  }

  lemma Scanned(buf: seq<char>, p: nat, i: nat, rem: string, t: string, k: nat)
    requires Progress(buf, p, i, rem, t) && i <= k <= i + |rem| && k <= |buf| && Plain(buf[i..k])
    ensures Progress(buf, p, k, rem[k - i..], t)
  {
    var a, b := buf[i..k], rem[k - i..];
    Tail(buf, i, rem, k);
    assert a == rem[..k - i] by { assert buf[i..i + |rem|][..k - i] == buf[i..k]; }
    assert rem == a + b && buf[p..k] == buf[p..i] + a;
    ParsePlain(a, b);
    Prepended(buf[p..i], a, Parse(b));
    assert NUL !in a;
  }

  lemma Missing(buf: seq<char>, p: nat, k: nat, b: string, t: string)
    requires Progress(buf, p, k, b, t) && b == []
    ensures Parse(t) == None
  {
  }

  lemma Closed(buf: seq<char>, p: nat, k: nat, b: string, t: string)
    requires Progress(buf, p, k, b, t) && b != [] && b[0] == '"'
    ensures k < |buf| && Parse(t) == Some(buf[p..k]) && Holds(buf[k := NUL], p, buf[p..k])
  {
    assert buf[p..k] + [] == buf[p..k];
    assert buf[k := NUL][p..k] == buf[p..k];
  }

  lemma Unescaped(was: seq<char>, now: seq<char>, p: nat, k: nat, b: string, t: string)
    requires Progress(was, p, k, b, t) && b != [] && b[0] == '\\'
    requires now == was[..k] + was[k + 1..k + |b| + 1] + was[k + |b|..]
    ensures Progress(now, p, k + 1, if |b| == 1 then [] else b[2..], t)
  {
    Removed(was, now, p, k, b);
    if |b| > 1 {
      var rem := b[2..];
      assert Parse(b) == Prepend([b[1]], Parse(rem));
      Prepended(was[p..k], [b[1]], Parse(rem));
    }
  }

  lemma Tail(buf: seq<char>, p: nat, t: string, k: nat)
    requires Holds(buf, p, t) && p <= k <= p + |t|
    ensures Holds(buf, k, t[k - p..])
  {
  }

  /** After the shift the escaped character stands where the backslash was. */
  lemma Removed(was: seq<char>, now: seq<char>, p: nat, k: nat, b: string)
    requires Holds(was, k, b) && b != [] && p <= k
    requires now == was[..k] + was[k + 1..k + |b| + 1] + was[k + |b|..]
    ensures |b| == 1 ==> Holds(now, k + 1, [])
    ensures |b| > 1 ==> Holds(now, k + 1, b[2..]) && now[p..k + 1] == was[p..k] + [b[1]] && b[1] != NUL
  {
    assert was[k + 1..k + |b| + 1] == b[1..] + [NUL];
    if |b| > 1 {
      assert now[k..k + |b|] == b[1..] + [NUL];
      assert now[k + 1..k + |b| - 1] == b[2..];
    }
  }

  // ---- Whole lines ----

  /** What conf_write prints for a string symbol. */
  function Line(name: string, s: string): string { name + "=\"" + Esc(s) + "\"\n" }

  function IndexOf(c: char, s: string): (i: nat)
    ensures i <= |s| && c !in s[..i] && (i < |s| ==> s[i] == c)
  {
    if s == [] || s[0] == c then 0 else
    var i := 1 + IndexOf(c, s[1..]);
    assert s[..i] == [s[0]] + s[1..][..i - 1];
    i
  }

  lemma {:induction false} IndexUnique(c: char, a: string, b: string)
    requires c !in a && b != [] && b[0] == c
    ensures IndexOf(c, a + b) == |a|
  {
    if a != [] {
      assert (a + b)[0] == a[0] && (a + b)[1..] == a[1..] + b;
      IndexUnique(c, a[1..], b);
    }
  }

  lemma {:induction false} NoIndex(c: char, a: string)
    requires c !in a
    ensures IndexOf(c, a) == |a|
  {
    if a != [] { NoIndex(c, a[1..]); }
  }

  lemma {:induction false} IndexWithin(c: char, u: string, v: string)
    requires c in u
    ensures IndexOf(c, u + v) == IndexOf(c, u) < |u|
  {
    assert (u + v)[0] == u[0] && (u + v)[1..] == u[1..] + v;
    if u[0] != c {
      assert u == [u[0]] + u[1..];
      IndexWithin(c, u[1..], v);
    }
  }

  /** fgets: through the first newline, but at most `size` - 1 characters */
  function Fgets(f: string, size: nat): string
    requires size > 0
  {
    var i := IndexOf('\n', f);
    if i < |f| && i + 1 <= size - 1 then f[..i + 1] else if |f| <= size - 1 then f else f[..size - 1]
  }

  /** Lines 254-259 of conf_read_simple: cut the newline and a carriage return before it */
  function Chomp(p: string): string {
    var j := IndexOf('\n', p);
    if j < |p| && j > 0 && p[j - 1] == '\r' then p[..j - 1] else p[..j]
  }

  /** conf_set_sym_val for a string symbol */
  function Value(name: string, v: string): Option<(string, string)> {
    if v == [] || v[0] != '"' then None else
    var r := Parse(v[1..]);
    if r.None? then None else Some((name, r.value))
  }

  /** Name and string value read from one line. */
  function Entry(line: string): Option<(string, string)> {
    var i := IndexOf('=', line);
    if line == [] || !('A' <= line[0] <= 'Z') || i == |line| then None else Value(line[..i], Chomp(line[i + 1..]))
  }

  predicate NameOk(name: string) {
    name != [] && 'A' <= name[0] <= 'Z' && '=' !in name && '\n' !in name
  }

  lemma {:induction false} EscNewline(s: string)
    ensures '\n' in Esc(s) <==> '\n' in s
  {
    if s != [] {
      EscNewline(s[1..]);
      assert s == [s[0]] + s[1..];
    }
  }

  lemma EntryOf(name: string, p: string)
    requires NameOk(name)
    ensures Entry(name + ("=" + p)) == Value(name, Chomp(p))
  {
    var line := name + ("=" + p);
    IndexUnique('=', name, "=" + p);
    assert line[0] == name[0] && line[..|name|] == name && line[|name| + 1..] == p;
  }

  lemma ChompText(w: string)
    requires '\n' !in w
    ensures Chomp(w) == w
    ensures (Chomp(w + "\n") == w || (w != [] && w[|w| - 1] == '\r' && Chomp(w + "\n") == w[..|w| - 1]))
  {
    NoIndex('\n', w);
    IndexUnique('\n', w, "\n");
    assert w[..|w|] == w && (w + "\n")[..|w|] == w;
    if w != [] { assert (w + "\n")[|w| - 1] == w[|w| - 1] && (w + "\n")[..|w| - 1] == w[..|w| - 1]; }
  }

  lemma CutValue(name: string, s: string, m: nat)
    requires m <= 1 + |Esc(s)|
    ensures Value(name, ("\"" + Esc(s))[..m]) == None
  {
    if m > 0 {
      assert ("\"" + Esc(s))[..m][1..] == Esc(s)[..m - 1];
      ParseCut(s, m - 1);
    }
  }

  /** A line cut before its closing quote gives no entry. */
  lemma CutEntry(name: string, s: string, n: nat)
    requires NameOk(name) && n <= |name| + 2 + |Esc(s)| && '\n' !in (name + "=\"" + Esc(s))[..n]
    ensures var u := (name + "=\"" + Esc(s))[..n]; Entry(u) == None && Entry(u + "\n") == None
  {
    hide Value, Chomp, Esc, NameOk, Entry;
    var k, q := |name|, "\"" + Esc(s);
    var u := (name + "=\"" + Esc(s))[..n];
    if n > k {
      var w := q[..n - k - 1];
      assert u == name + ("=" + w) && u + "\n" == name + ("=" + (w + "\n"));
      EntryOf(name, w);
      EntryOf(name, w + "\n");
      assert w == u[k + 1..];
      ChompText(w);
      CutValue(name, s, |w|);
      if w != [] {
        assert w[..|w| - 1] == q[..|w| - 1];
        CutValue(name, s, |w| - 1);
      }
    } else {
      assert u == name[..n];
      ShortEntry(name, u);
    }
  }

  lemma ShortEntry(name: string, u: string)
    requires NameOk(name) && u <= name
    ensures Entry(u) == None && Entry(u + "\n") == None
  {
    NoIndex('=', u);
    NoIndex('=', u + "\n");
  }

  lemma WholeEntry(name: string, s: string)
    requires NameOk(name) && '\n' !in s
    ensures var u := name + "=\"" + Esc(s) + "\""; Entry(u) == Some((name, s)) && Entry(u + "\n") == Some((name, s))
  {
    EscNewline(s);
    hide Chomp, Esc, NameOk, Entry;
    var w := "\"" + Esc(s) + "\"";
    var u := name + "=\"" + Esc(s) + "\"";
    assert u == name + ("=" + w) && u + "\n" == name + ("=" + (w + "\n"));
    EntryOf(name, w);
    EntryOf(name, w + "\n");
    ChompText(w);
    assert w[1..] == Esc(s) + ['"'] + "";
    ParseEsc(s, "");
  }

  lemma FgetsText(t: string, f: string, size: nat)
    requires size > 0 && '\n' !in t && (f == t || (t < f && f[|t|] == '\n'))
    ensures Fgets(f, size) ==
      if |t| > size - 1 then t[..size - 1] else if |t| == size - 1 || f == t then t else t + "\n"
  {
    if f == t {
      NoIndex('\n', t);
    } else {
      assert f == t + f[|t|..];
      IndexUnique('\n', t, f[|t|..]);
      assert f[..|t| + 1] == t + "\n";
    }
  }

  /** Reading back the first line of a file recovers name and value exactly when the value has no
      newline and the line up to the closing quote fits the buffer; otherwise nothing is read. */
  lemma ReadBack(name: string, s: string, rest: string)
    requires NameOk(name) && NUL !in s
    ensures Entry(Fgets(Line(name, s) + rest, LINE)) ==
      if '\n' !in s && |name| + 3 + |Esc(s)| <= LINE - 1 then Some((name, s)) else None
  {
    var u := name + "=\"" + Esc(s);
    var f := Line(name, s) + rest;
    EscNewline(s);
    hide Entry, Esc, IndexOf, Fgets;
    if '\n' !in s {
      var w := u + "\"";
      assert f == w + ("\n" + rest) && '\n' !in w;
      FgetsText(w, f, LINE);
      if |w| <= LINE - 1 {
        WholeEntry(name, s);
      } else {
        assert w[..LINE - 1] == u[..LINE - 1];
        CutEntry(name, s, LINE - 1);
      }
    } else {
      assert f == u + ("\"\n" + rest) && '\n' in u;
      IndexWithin('\n', u, "\"\n" + rest);
      var i := IndexOf('\n', u);
      var t := u[..i];
      assert t < f && f[i] == u[i];
      FgetsText(t, f, LINE);
      assert t[..if |t| > LINE - 1 then LINE - 1 else |t|] == u[..if |t| > LINE - 1 then LINE - 1 else |t|];
      CutEntry(name, s, if |t| > LINE - 1 then LINE - 1 else |t|);
    }
  }
}
