/**
 The scanner that decides whether a query string holds no statement at all
 (`is_empty_query`, src/extended.rs:361-395), against a recursive recognizer and a grammar.
 */
module EmptyQuery {
  import opened Wrappers

  newtype i32 = x: int | -0x8000_0000 <= x < 0x8000_0000

  predicate IsNewline(c: char) {
    c == '\n' || c == '\r'
  }

  predicate IsBlank(c: char) {
    c == ' ' || c == '\t' || c == '\U{0C}' || IsNewline(c) || c == ';'
  }

  predicate Starts(s: string, a: char, b: char) {
    |s| >= 2 && s[0] == a && s[1] == b
  }

  // ---------- The recognizer --------------------------------------------

  function SkipLine(s: string): (rest: string)
    ensures |rest| <= |s|
  {
    if s == [] then [] else if IsNewline(s[0]) then s[1..] else SkipLine(s[1..])
  }

  /** The text after the comment in which `depth` block comments are open, if it is closed. */
  function SkipBlock(s: string, depth: nat): (rest: Option<string>)
    ensures rest.Some? ==> |rest.value| <= |s|
  {
    if s == [] then None
    else if Starts(s, '/', '*') then SkipBlock(s[2..], depth + 1)
    else if Starts(s, '*', '/') then
      if depth <= 1 then Some(s[2..]) else SkipBlock(s[2..], depth - 1)
    else SkipBlock(s[1..], depth)
  }

  predicate Empty(s: string)
    decreases |s|
  {
    if s == [] then true
    else if IsBlank(s[0]) then Empty(s[1..])
    else if Starts(s, '-', '-') then Empty(SkipLine(s[2..]))
    else if Starts(s, '/', '*') then
      match SkipBlock(s[2..], 1) { case None => false case Some(rest) => Empty(rest) }
    else false
  }

  // ---------- The loops --------------------------------------------------

  /** The cursor behind a line comment whose dashes have been read. */
  method ReadLineComment(sql: string, start: nat) returns (i: nat)
    requires start <= |sql|
    ensures start <= i <= |sql| && SkipLine(sql[start..]) == sql[i..]
  {
    i := start;
    while i < |sql|
      invariant start <= i <= |sql|
      invariant SkipLine(sql[start..]) == SkipLine(sql[i..])
    {
      var c := sql[i];
      ghost var here := sql[i..];
      i := i + 1;
      assert here[1..] == sql[i..];
      if IsNewline(c) {
        break;
      }
    }
  }

  /** The cursor behind a block comment whose opener has been read, and the depth there: 0 if the
      comment is closed.  The depth never exceeds half of the characters read, so a 32-bit counter
      suffices for every text shorter than 2^32 characters. */
  method ReadBlockComment(sql: string, start: nat) returns (i: nat, depth: i32)
    requires 2 <= start <= |sql| < 0x1_0000_0000
    ensures start <= i <= |sql| && 0 <= depth && 2 * (depth as int) <= i - start + 2
    ensures SkipBlock(sql[start..], 1) == if depth == 0 then Some(sql[i..]) else None
  {
    i := start;
    depth := 1;
    while i < |sql|
      invariant start <= i <= |sql|
      invariant 1 <= depth && 2 * (depth as int) <= i - start + 2
      invariant SkipBlock(sql[start..], 1) == SkipBlock(sql[i..], depth as nat)
    {
      var c := sql[i];
      ghost var here := sql[i..];
      i := i + 1;
      assert here[1..] == sql[i..];
      if c == '/' && i < |sql| && sql[i] == '*' {
        i := i + 1;
        assert here[2..] == sql[i..];
        depth := depth + 1;
      } else if c == '*' && i < |sql| && sql[i] == '/' {
        i := i + 1;
        assert here[2..] == sql[i..];
        depth := depth - 1;
        if depth == 0 {
          return;
        }
      }
    }
  }

  method IsEmptyQuery(sql: string) returns (r: bool)
    requires |sql| < 0x1_0000_0000
    ensures r == Empty(sql)
  {
    var i := 0;
    while i < |sql|
      invariant 0 <= i <= |sql|
      invariant Empty(sql) == Empty(sql[i..])
    {
      var ch := sql[i];
      ghost var here := sql[i..];
      i := i + 1;
      assert here[1..] == sql[i..];
      if IsBlank(ch) {
        continue;
      }
      if ch == '-' && i < |sql| && sql[i] == '-' {
        assert here[2..] == sql[i + 1..];
        i := ReadLineComment(sql, i + 1);
        continue;
      }
      if ch == '/' && i < |sql| && sql[i] == '*' {
        assert here[2..] == sql[i + 1..];
        var depth;
        i, depth := ReadBlockComment(sql, i + 1);
        if depth != 0 {
          return false;
        }
        continue;
      }
      return false;
    }
    return true;
  }

  // ---------- The grammar ------------------------------------------------

  datatype Token = Open | Shut | Text(c: char)

  datatype Item = Blank(c: char) | Line(body: string, end: string) | Block(inner: seq<Token>)

  function RenderToken(t: Token): string {
    match t
    case Open => "/*"
    case Shut => "*/"
    case Text(c) => [c]
  }

  function RenderTokens(ts: seq<Token>): string {
    if ts == [] then "" else RenderToken(ts[0]) + RenderTokens(ts[1..])
  }

  /** A nested comment body: the last token, and no earlier one, closes the outermost comment. */
  predicate Balanced(ts: seq<Token>, depth: nat) {
    ts != [] &&
    match ts[0]
    case Open => Balanced(ts[1..], depth + 1)
    case Shut => if depth <= 1 then ts[1..] == [] else Balanced(ts[1..], depth - 1)
    case Text(_) => Balanced(ts[1..], depth)
  }

  /** Read from the left, a single character token never begins a delimiter. */
  predicate Lexed(ts: seq<Token>) {
    ts != [] ==>
      && (ts[0].Text? ==>
            var s := RenderTokens(ts);
            !Starts(s, '/', '*') && !Starts(s, '*', '/'))
      && Lexed(ts[1..])
  }

  /** Only the last item may be a line comment that the end of the text ends. */
  predicate ItemOk(item: Item, last: bool) {
    match item
    case Blank(c) => c == ' ' || c == '\t' || c == '\n' || c == '\U{0C}' || c == '\r' || c == ';'
    case Line(body, end) =>
      '\n' !in body && '\r' !in body && (end == "\n" || end == "\r" || (end == "" && last))
    case Block(inner) => Balanced(inner, 1) && Lexed(inner)
  }

  predicate WellFormed(items: seq<Item>) {
    items != [] ==> ItemOk(items[0], items[1..] == []) && WellFormed(items[1..])
  }

  function RenderItem(item: Item): string {
    match item
    case Blank(c) => [c]
    case Line(body, end) => "--" + body + end
    case Block(inner) => "/*" + RenderTokens(inner)
  }

  function Render(items: seq<Item>): string {
    if items == [] then "" else RenderItem(items[0]) + Render(items[1..])
  }

  lemma {:induction false} SkipLineReads(body: string, end: string, rest: string)
    requires forall c :: c in body ==> !IsNewline(c)
    requires end == "\n" || end == "\r" || (end == "" && rest == "")
    ensures SkipLine(body + end + rest) == rest
  {
    if body == "" {
      assert body + end + rest == end + rest;
    } else {
      SkipLineReads(body[1..], end, rest);
      assert (body + end + rest)[1..] == body[1..] + end + rest;
    }
  }

  lemma {:induction false} SkipBlockReads(ts: seq<Token>, depth: nat, rest: string)
    requires depth >= 1 && Balanced(ts, depth) && Lexed(ts)
    ensures SkipBlock(RenderTokens(ts) + rest, depth) == Some(rest)
  {
    var tail := RenderTokens(ts[1..]);
    Associate(RenderToken(ts[0]), tail, rest);
    match ts[0]
    case Open =>
      SkipBlockReads(ts[1..], depth + 1, rest);
      SkipOpener(tail + rest, depth);
    case Shut =>
      SkipCloser(tail + rest, depth);
      if depth == 1 {
        assert tail + rest == rest;
      } else {
        SkipBlockReads(ts[1..], depth - 1, rest);
      }
    case Text(c) =>
      SkipBlockReads(ts[1..], depth, rest);
      assert ts[1..] != [] && |tail| >= 1;
      SkipText(c, tail, rest, depth);
  }

  lemma SkipOpener(s: string, depth: nat)
    ensures SkipBlock("/*" + s, depth) == SkipBlock(s, depth + 1)
  {
    assert ("/*" + s)[2..] == s;
  }

  lemma SkipCloser(s: string, depth: nat)
    ensures SkipBlock("*/" + s, depth) == if depth <= 1 then Some(s) else SkipBlock(s, depth - 1)
  {
    assert ("*/" + s)[2..] == s;
  }

  lemma SkipText(c: char, tail: string, rest: string, depth: nat)
    requires tail != "" && !Starts([c] + tail, '/', '*') && !Starts([c] + tail, '*', '/')
    ensures SkipBlock([c] + (tail + rest), depth) == SkipBlock(tail + rest, depth)
  {
    assert ([c] + (tail + rest))[1..] == tail + rest;
  }

  lemma EmptyAfterLine(body: string, end: string, rest: string)
    requires forall c :: c in body ==> !IsNewline(c)
    requires end == "\n" || end == "\r" || (end == "" && rest == "")
    ensures Empty("--" + body + end + rest) <==> Empty(rest)
  {
    var s := "--" + body + end + rest;
    assert s[2..] == body + end + rest;
    SkipLineReads(body, end, rest);
  }

  lemma EmptyAfterBlock(inner: seq<Token>, rest: string)
    requires Balanced(inner, 1) && Lexed(inner)
    ensures Empty("/*" + RenderTokens(inner) + rest) <==> Empty(rest)
  {
    var s, tail := "/*" + RenderTokens(inner) + rest, RenderTokens(inner) + rest;
    assert s[2..] == tail;
    SkipBlockReads(inner, 1, rest);
    EmptyOfBlock(s, tail);
  }

  lemma {:induction false} Accepts(items: seq<Item>)
    requires WellFormed(items)
    ensures Empty(Render(items))
  {
    if items != [] {
      Accepts(items[1..]);
      var rest := Render(items[1..]);
      match items[0]
      case Blank(c) => assert Render(items)[1..] == rest;
      case Line(body, end) => EmptyAfterLine(body, end, rest);
      case Block(inner) => EmptyAfterBlock(inner, rest);
    }
  }

  lemma {:induction false} ReadLine(s: string) returns (body: string, end: string)
    ensures forall c :: c in body ==> !IsNewline(c)
    ensures end == "\n" || end == "\r" || (end == "" && SkipLine(s) == "")
    ensures s == body + end + SkipLine(s)
  {
    if s == "" {
      body, end := "", "";
    } else if IsNewline(s[0]) {
      body, end := "", [s[0]];
    } else {
      body, end := ReadLine(s[1..]);
      body := [s[0]] + body;
    }
  }

  lemma {:induction false} ReadBlock(s: string, depth: nat) returns (ts: seq<Token>)
    requires depth >= 1 && SkipBlock(s, depth).Some?
    ensures Balanced(ts, depth) && Lexed(ts)
    ensures s == RenderTokens(ts) + SkipBlock(s, depth).value
  {
    var tail := SkipBlock(s, depth).value;
    if Starts(s, '/', '*') {
      var rest := ReadBlock(s[2..], depth + 1);
      ts := ConsToken(Open, rest, s[2..], tail, s);
    } else if Starts(s, '*', '/') {
      var rest := [];
      if depth > 1 {
        rest := ReadBlock(s[2..], depth - 1);
      }
      ts := ConsToken(Shut, rest, s[2..], tail, s);
    } else {
      var rest := ReadBlock(s[1..], depth);
      ts := ConsToken(Text(s[0]), rest, s[1..], tail, s);
    }
  }

  lemma ConsToken(t: Token, ts: seq<Token>, s': string, tail: string, s: string) returns (r: seq<Token>)
    requires s' == RenderTokens(ts) + tail && s == RenderToken(t) + s' && Lexed(ts)
    requires t.Text? ==> !Starts(s, '/', '*') && !Starts(s, '*', '/')
    ensures r == [t] + ts && r[0] == t && r[1..] == ts
    ensures s == RenderTokens(r) + tail && Lexed(r)
  {
    r := [t] + ts;
    assert r[1..] == ts;
    assert RenderTokens(r) == RenderToken(t) + RenderTokens(ts);
    assert RenderTokens(r) <= s;
  }

  lemma LineItem(s: string) returns (item: Item)
    requires Starts(s, '-', '-')
    ensures s == RenderItem(item) + SkipLine(s[2..]) && ItemOk(item, SkipLine(s[2..]) == "")
  {
    var body, end := ReadLine(s[2..]);
    item := Line(body, end);
    assert s == "--" + s[2..];
    Associate(body, end, SkipLine(s[2..]));
    Associate("--", body + end, SkipLine(s[2..]));
    Associate("--", body, end);
  }

  lemma BlockItem(s: string) returns (item: Item)
    requires Starts(s, '/', '*') && SkipBlock(s[2..], 1).Some?
    ensures s == RenderItem(item) + SkipBlock(s[2..], 1).value && ItemOk(item, false)
  {
    var inner := ReadBlock(s[2..], 1);
    item := Block(inner);
    assert s == "/*" + s[2..];
    Associate("/*", RenderTokens(inner), SkipBlock(s[2..], 1).value);
  }

  lemma FirstItem(s: string) returns (item: Item, rest: string)
    requires s != "" && Empty(s)
    ensures s == RenderItem(item) + rest && |rest| < |s| && Empty(rest)
    ensures ItemOk(item, rest == "")
  {
    if IsBlank(s[0]) {
      item, rest := Blank(s[0]), s[1..];
    } else if Starts(s, '-', '-') {
      item := LineItem(s);
      rest := SkipLine(s[2..]);
    } else {
      item := BlockItem(s);
      rest := SkipBlock(s[2..], 1).value;
    }
  }

  lemma {:induction false} Generates(s: string) returns (items: seq<Item>)
    requires Empty(s)
    ensures WellFormed(items) && Render(items) == s
    decreases |s|
  {
    if s == "" {
      items := [];
    } else {
      var item, rest := FirstItem(s);
      var tail := Generates(rest);
      items := [item] + tail;
      assert items[1..] == tail;
      if rest == "" { NothingRendersEmpty(tail); }
    }
  }

  lemma NothingRendersEmpty(items: seq<Item>)
    requires Render(items) == ""
    ensures items == []
  {
  }

  /** The scanner accepts exactly the strings of the grammar. */
  lemma EmptyIffGenerated(s: string)
    ensures Empty(s) <==> exists items :: WellFormed(items) && Render(items) == s
  {
    if Empty(s) {
      var items := Generates(s);
    }
    if items :| WellFormed(items) && Render(items) == s {
      Accepts(items);
    }
  }

  /** The characters that are no statement by themselves: the five ASCII whitespace characters and the
      semicolon. */
  lemma EmptyCharacter(c: char)
    ensures Empty([c]) <==> c in {' ', '\t', '\n', '\U{0C}', '\r', ';'}
  {
    assert [c][1..] == "";
  }

  /** The characters that end a line comment. */
  lemma LineEnd(c: char)
    ensures Empty("--" + [c] + "x") <==> c != '\n' && c != '\r'
  {
    var s := "--" + [c] + "x";
    assert s[2..] == [c] + "x" && ([c] + "x")[1..] == "x" && "x"[1..] == "";
    assert SkipLine("x") == SkipLine("") == "";
    assert !Empty("x");
  }

  // ---------- Composition ------------------------------------------------

  lemma {:induction false} SkipBlockExtends(s: string, depth: nat, t: string)
    requires SkipBlock(s, depth).Some?
    ensures SkipBlock(s + t, depth) == Some(SkipBlock(s, depth).value + t)
  {
    var n := if Starts(s, '/', '*') || Starts(s, '*', '/') then 2 else 1;
    assert (s + t)[n..] == s[n..] + t;
    if Starts(s, '/', '*') {
      SkipBlockExtends(s[2..], depth + 1, t);
    } else if Starts(s, '*', '/') {
      if depth > 1 { SkipBlockExtends(s[2..], depth - 1, t); }
    } else {
      SkipBlockExtends(s[1..], depth, t);
      assert |s| > 1;
    }
  }

  lemma {:induction false} SkipLineExtends(s: string, t: string)
    ensures SkipLine(s + "\n" + t) == if exists c :: c in s && IsNewline(c) then SkipLine(s) + "\n" + t else t
    ensures (forall c :: c in s ==> !IsNewline(c)) ==> SkipLine(s) == ""
  {
    if s == "" {
      assert s + "\n" + t == "\n" + t;
    } else {
      assert (s + "\n" + t)[1..] == s[1..] + "\n" + t;
      SkipLineExtends(s[1..], t);
      assert s == [s[0]] + s[1..];
    }
  }

  /** A text without statements, ended by a newline, may be put in front of any text. */
  lemma {:induction false} EmptyPrefix(a: string, b: string)
    requires Empty(a)
    ensures Empty(a + "\n" + b) <==> Empty(b)
    decreases |a|
  {
    var s := a + "\n" + b;
    if a == "" {
      assert s[1..] == b;
    } else if IsBlank(a[0]) {
      assert s[1..] == a[1..] + "\n" + b;
      EmptyPrefix(a[1..], b);
    } else if Starts(a, '-', '-') {
      assert s[2..] == a[2..] + "\n" + b;
      SkipLineExtends(a[2..], b);
      EmptyPrefix(SkipLine(a[2..]), b);
    } else {
      var rest := SkipBlock(a[2..], 1).value;
      assert s[2..] == a[2..] + ("\n" + b) && rest + ("\n" + b) == rest + "\n" + b;
      SkipBlockExtends(a[2..], 1, "\n" + b);
      EmptyPrefix(rest, b);
    }
  }

  function Repeat(s: string, n: nat): string {
    if n == 0 then "" else s + Repeat(s, n - 1)
  }

  lemma {:induction false} SkipOpeners(n: nat, t: string, depth: nat)
    ensures SkipBlock(Repeat("/*", n) + t, depth) == SkipBlock(t, depth + n)
  {
    var s := Repeat("/*", n) + t;
    if n == 0 {
      assert s == t;
    } else {
      assert s[2..] == Repeat("/*", n - 1) + t;
      SkipOpeners(n - 1, t, depth + 1);
    }
  }

  lemma {:induction false} SkipClosers(m: nat, depth: nat)
    requires depth >= 1
    ensures SkipBlock(Repeat("*/", m), depth) == if m < depth then None else Some(Repeat("*/", m - depth))
  {
    if m > 0 {
      assert Repeat("*/", m)[2..] == Repeat("*/", m - 1);
      if depth > 1 { SkipClosers(m - 1, depth - 1); }
    }
  }

  lemma ClosersAreNotEmpty(k: nat)
    ensures Empty(Repeat("*/", k)) <==> k == 0
  {
    if k > 0 {
      assert Repeat("*/", k)[0] == '*';
    }
  }

  lemma EmptyOfBlock(s: string, rest: string)
    requires Starts(s, '/', '*') && s[2..] == rest
    ensures Empty(s) <==> SkipBlock(rest, 1).Some? && Empty(SkipBlock(rest, 1).value)
  {
  }

  lemma OpensWithOne(n: nat, t: string)
    requires n > 0
    ensures var s := Repeat("/*", n) + t;
      Starts(s, '/', '*') && s[2..] == Repeat("/*", n - 1) + t
  {
  }

  lemma OpenersThenText(n: nat, t: string)
    requires n > 0
    ensures Empty(Repeat("/*", n) + t) <==> SkipBlock(t, n).Some? && Empty(SkipBlock(t, n).value)
  {
    var s, rest := Repeat("/*", n) + t, Repeat("/*", n - 1) + t;
    assert Starts(s, '/', '*') && s[2..] == rest by { OpensWithOne(n, t); }
    assert SkipBlock(rest, 1) == SkipBlock(t, n) by { SkipOpeners(n - 1, t, 1); }
    EmptyOfBlock(s, rest);
  }

  /** Openers followed by closers are empty exactly when they are equally many. */
  lemma OpenersAndClosers(n: nat, m: nat)
    ensures Empty(Repeat("/*", n) + Repeat("*/", m)) <==> n == m
  {
    if n == 0 {
      assert Repeat("/*", n) + Repeat("*/", m) == Repeat("*/", m);
      ClosersAreNotEmpty(m);
    } else {
      OpenersThenText(n, Repeat("*/", m));
      SkipClosers(m, n);
      if m >= n { ClosersAreNotEmpty(m - n); }
    }
  }
}
