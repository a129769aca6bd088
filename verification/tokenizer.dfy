/**
  The command tokenizer (tokenizer.c): a character-level scanner with a
  quote state and an escape flag that splits a command line on spaces and
  tabs, and the doubly linked token list it builds and walks.
 */
module Tokenizer {
  import opened Wrappers
  import opened Libc

  // ---------------------------------------------------------------------
  // The scanner
  // ---------------------------------------------------------------------

  /** The quote variable: 0, '"' or '\''. */
  datatype Quote = NoQuote | Double | Single

  /** The state of tokenize between two characters: tokens emitted so far and the builder's text. */
  datatype Scan = Scan(tokens: seq<string>, current: string, quote: Quote, escape: bool)

  const Start := Scan([], "", NoQuote, false)

  /** The text of the builder with one more character. */
  function Push(st: Scan, c: char): Scan
  {
    st.(current := st.current + [c])
  }

  /** One pass of the switch in tokenize's loop. */
  function Step(st: Scan, c: char): Scan
  {
    if c == ' ' || c == '\t' then
      if st.quote != NoQuote then Push(st, c)
      else Scan(st.tokens + [st.current], "", st.quote, st.escape)
    else if c == '"' then
      if st.quote == Single then Push(st, c)
      else if st.escape then Push(st, c).(escape := false)
      else st.(quote := if st.quote != NoQuote then NoQuote else Double)
    else if c == '\'' then
      if st.quote == Double then Push(st, c)
      else if st.escape then Push(st, c).(escape := false)
      else st.(quote := if st.quote != NoQuote then NoQuote else Single)
    else if c == '\\' then
      (if st.escape then Push(st, c) else st).(escape := !st.escape)
    else
      (if !st.escape then Push(st, c) else st).(escape := false)
  }

  /** The scanner run over the characters of s, in order, from state st. */
  function RunFrom(st: Scan, s: string): Scan
    decreases |s|
  {
    if s == [] then st else Step(RunFrom(st, s[..|s| - 1]), s[|s| - 1])
  }

  /** The characters the loop visits: those before the first NUL. */
  function UpToNul(s: string): (r: string)
    ensures |r| <= |s| && r == s[..|r|]
    ensures forall i :: 0 <= i < |r| ==> r[i] != '\0'
    ensures |r| < |s| ==> s[|r|] == '\0'
    decreases |s|
  {
    if s == [] || s[0] == '\0' then [] else [s[0]] + UpToNul(s[1..])
  }

  /** The end of tokenize: the builder's text becomes a last token only if it is non-empty. */
  function Finish(st: Scan): seq<string>
  {
    if |st.current| > 0 then st.tokens + [st.current] else st.tokens
  }

  /** The token texts of a command line, in order. */
  function Split(s: string): seq<string>
  {
    Finish(RunFrom(Start, UpToNul(s)))
  }

  /** Running over a concatenation is running over each part in turn. */
  lemma {:induction false} RunAppend(st: Scan, a: string, b: string)
    ensures RunFrom(st, a + b) == RunFrom(RunFrom(st, a), b)
    decreases |b|
  {
    if b == [] {
      assert a + b == a;
    } else {
      assert (a + b)[..|a + b| - 1] == a + b[..|b| - 1];
      assert (a + b)[|a + b| - 1] == b[|b| - 1];
      RunAppend(st, a, b[..|b| - 1]);
    }
  }

  // ---------------------------------------------------------------------
  // Splitting laws
  // ---------------------------------------------------------------------

  /** Text with no quote, backslash, tab or NUL: only spaces are special in it. */
  predicate Plain(s: string)
  {
    forall i :: 0 <= i < |s| ==> s[i] != '"' && s[i] != '\'' && s[i] != '\\' && s[i] != '\t' && s[i] != '\0'
  }

  /** The pieces of s between its spaces: there is always one more piece than spaces. */
  function Pieces(s: string): (r: seq<string>)
    ensures |r| >= 1
    decreases |s|
  {
    if s == [] then [""]
    else
      var p := Pieces(s[..|s| - 1]);
      var c := s[|s| - 1];
      if c == ' ' then p + [""] else p[..|p| - 1] + [p[|p| - 1] + [c]]
  }

  /** The pieces joined with single spaces. */
  function Join(pieces: seq<string>): string
    decreases |pieces|
  {
    if pieces == [] then ""
    else if |pieces| == 1 then pieces[0]
    else Join(pieces[..|pieces| - 1]) + " " + pieces[|pieces| - 1]
  }

  /** Pieces is splitting on spaces: the pieces joined with single spaces give s back. */
  lemma {:induction false} PiecesJoin(s: string)
    ensures Join(Pieces(s)) == s
    decreases |s|
  {
    if s != [] {
      var init := s[..|s| - 1];
      var c := s[|s| - 1];
      var p := Pieces(init);
      PiecesJoin(init);
      assert s == init + [c];
      var k := |p|;
      if c == ' ' {
        assert (p + [""])[..k] == p;
        assert Join(p + [""]) == Join(p) + " " + "";
      } else if k == 1 {
        assert Pieces(s) == [p[0] + [c]];
      } else {
        var q := p[..k - 1] + [p[k - 1] + [c]];
        assert q[..k - 1] == p[..k - 1];
        assert Join(q) == Join(p[..k - 1]) + " " + (p[k - 1] + [c]);
        assert Join(p) == Join(p[..k - 1]) + " " + p[k - 1];
      }
    }
  }

  /** No piece holds a space. */
  lemma {:induction false} PiecesSpaceFree(s: string)
    ensures forall j, i :: 0 <= j < |Pieces(s)| && 0 <= i < |Pieces(s)[j]| ==> Pieces(s)[j][i] != ' '
    decreases |s|
  {
    if s != [] {
      var init := s[..|s| - 1];
      var c := s[|s| - 1];
      var p := Pieces(init);
      PiecesSpaceFree(init);
      if c != ' ' {
        var q := Pieces(s);
        forall j, i | 0 <= j < |q| && 0 <= i < |q[j]|
          ensures q[j][i] != ' '
        {
          if j < |p| - 1 {
            assert q[j] == p[j];
          } else if i < |p[|p| - 1]| {
            assert q[j][i] == p[|p| - 1][i];
          }
        }
      }
    }
  }

  /** On plain text the scanner's state is the pieces so far: all but the last emitted, the last in the builder. */
  lemma {:induction false} RunPlain(s: string)
    requires Plain(s)
    ensures var p := Pieces(s);
      RunFrom(Start, s) == Scan(p[..|p| - 1], p[|p| - 1], NoQuote, false)
    decreases |s|
  {
    if s != [] {
      var init := s[..|s| - 1];
      assert Plain(init) by {
        forall i | 0 <= i < |init|
          ensures init[i] == s[i]
        {
        }
      }
      RunPlain(init);
      var p := Pieces(init);
      if s[|s| - 1] == ' ' {
        assert (p + [""])[..|p|] == p;
        assert p[..|p| - 1] + [p[|p| - 1]] == p;
      }
    }
  }

  /**
    For text with no quotes, backslashes, tabs or NULs the tokens are the
    pieces between spaces, empty ones included, except that a last empty
    piece is dropped.
   */
  lemma PlainSplit(s: string)
    requires Plain(s)
    ensures var p := Pieces(s);
      Split(s) == if p[|p| - 1] == "" then p[..|p| - 1] else p
  {
    NoNul(s);
    RunPlain(s);
    var p := Pieces(s);
    assert p[..|p| - 1] + [p[|p| - 1]] == p;
  }

  /** Text without a NUL is visited whole. */
  lemma {:induction false} NoNul(s: string)
    requires forall i :: 0 <= i < |s| ==> s[i] != '\0'
    ensures UpToNul(s) == s
    decreases |s|
  {
    if s != [] {
      NoNul(s[1..]);
    }
  }

  /** Two spaces in a row give an empty token between them. */
  lemma DoubleSpace()
    ensures Split("a  b") == ["a", "", "b"]
  {
    var s := "a  b";
    assert Plain(s);
    PlainSplit(s);
    assert s[..3][..2][..1][..0] == [];
    assert Pieces(s[..3][..2][..1]) == ["a"] by {
      assert "" + ['a'] == "a";
      assert [""][..0] + ["a"] == ["a"];
    }
    assert Pieces(s[..3][..2]) == ["a", ""];
    assert Pieces(s[..3]) == ["a", "", ""];
    assert Pieces(s) == ["a", "", "b"] by {
      var p := ["a", "", ""];
      assert p[2] + ['b'] == "b";
      assert p[..2] + ["b"] == ["a", "", "b"];
    }
  }

  /** An escape is not cleared by the space it precedes, so it swallows the next character. */
  lemma EscapedSpace()
    ensures Split("a\\ b") == ["a"]
  {
    var s := "a\\ b";
    NoNul(s);
    assert s[..3][..2][..1][..0] == [];
    assert RunFrom(Start, s[..3][..2][..1]) == Scan([], "a", NoQuote, false);
    assert RunFrom(Start, s[..3][..2]) == Scan([], "a", NoQuote, true);
    assert RunFrom(Start, s[..3]) == Scan(["a"], "", NoQuote, true);
    assert RunFrom(Start, s) == Scan(["a"], "", NoQuote, false);
  }

  /**
    Inside quotes, text with no closing quote, backslash or NUL is stored
    as it is, spaces, tabs and the other quote character included, and
    the closing quote ends the section without being stored.
   */
  lemma QuotedSection(st: Scan, q: string, quote: char)
    requires st.quote == NoQuote && !st.escape
    requires quote == '"' || quote == '\''
    requires forall i :: 0 <= i < |q| ==> q[i] != quote && q[i] != '\\' && q[i] != '\0'
    ensures RunFrom(st, [quote] + q + [quote]) == st.(current := st.current + q)
  {
    var open := if quote == '"' then Double else Single;
    var inside := st.(quote := open);
    assert RunFrom(st, [quote]) == inside by {
      assert [quote][..0] == [];
    }
    RunAppend(st, [quote], q);
    Inside(inside, q, quote);
    RunAppend(st, [quote] + q, [quote]);
    assert ([quote] + q + [quote])[..|q| + 1] == [quote] + q;
  }

  lemma {:induction false} Inside(st: Scan, q: string, quote: char)
    requires quote == '"' || quote == '\''
    requires st.quote == (if quote == '"' then Double else Single) && !st.escape
    requires forall i :: 0 <= i < |q| ==> q[i] != quote && q[i] != '\\' && q[i] != '\0'
    ensures RunFrom(st, q) == st.(current := st.current + q)
    decreases |q|
  {
    if q != [] {
      var init := q[..|q| - 1];
      Inside(st, init, quote);
      assert st.current + init + [q[|q| - 1]] == st.current + q;
    }
  }

  /** Two backslashes store one backslash, in any quote state. */
  lemma DoubleBackslash(st: Scan)
    requires !st.escape
    ensures Step(Step(st, '\\'), '\\') == st.(current := st.current + "\\")
  {
  }

  /** An escaped quote is stored and leaves the quote state as it was. */
  lemma EscapedQuote(st: Scan, quote: char)
    requires !st.escape && (quote == '"' || quote == '\'')
    requires st.quote == NoQuote || st.quote == (if quote == '"' then Double else Single)
    ensures Step(Step(st, '\\'), quote) == st.(current := st.current + [quote])
  {
  }

  /**
    Inside the other kind of quote an escaped quote character is stored like
    any quoted character, and the escape survives it to act on the next one.
   */
  lemma EscapedQuoteInOtherQuote(st: Scan, quote: char)
    requires !st.escape && (quote == '"' || quote == '\'')
    requires st.quote == (if quote == '"' then Single else Double)
    ensures Step(Step(st, '\\'), quote) == st.(current := st.current + [quote], escape := true)
  {
  }

  /** An escaped ordinary character is dropped. */
  lemma EscapedOrdinary(st: Scan, c: char)
    requires !st.escape
    requires c != ' ' && c != '\t' && c != '"' && c != '\'' && c != '\\'
    ensures Step(Step(st, '\\'), c) == st
  {
  }

  /** No token holds a NUL, and without quotes in the input no token holds a space or tab. */
  lemma TokensClean(s: string)
    ensures forall j, i :: 0 <= j < |Split(s)| && 0 <= i < |Split(s)[j]| ==> Split(s)[j][i] != '\0'
    ensures (forall i :: 0 <= i < |s| ==> s[i] != '"' && s[i] != '\'') ==>
      forall j, i :: 0 <= j < |Split(s)| && 0 <= i < |Split(s)[j]| ==> Split(s)[j][i] != ' ' && Split(s)[j][i] != '\t'
  {
    var u := UpToNul(s);
    CleanRun(u, '\0');
    if forall i :: 0 <= i < |s| ==> s[i] != '"' && s[i] != '\'' {
      forall i | 0 <= i < |u|
        ensures u[i] != '"' && u[i] != '\''
      {
        assert u[i] == s[i];
      }
      CleanRun(u, ' ');
      CleanRun(u, '\t');
    }
  }

  /** Whether no emitted token and not the builder's text holds c. */
  predicate Clean(st: Scan, c: char)
  {
    (forall j, i :: 0 <= j < |st.tokens| && 0 <= i < |st.tokens[j]| ==> st.tokens[j][i] != c) &&
    (forall i :: 0 <= i < |st.current| ==> st.current[i] != c)
  }

  /**
    A character c never enters a token if the input does not hold it, or,
    for a space or tab, if the input holds no quote.
   */
  lemma {:induction false} CleanRun(s: string, c: char)
    requires (c == ' ' || c == '\t') ==> forall i :: 0 <= i < |s| ==> s[i] != '"' && s[i] != '\''
    requires (c != ' ' && c != '\t') ==> forall i :: 0 <= i < |s| ==> s[i] != c
    ensures Clean(RunFrom(Start, s), c)
    ensures (c == ' ' || c == '\t') ==> RunFrom(Start, s).quote == NoQuote
    ensures Clean(RunFrom(Start, s), c) ==> forall j, i :: 0 <= j < |Finish(RunFrom(Start, s))| && 0 <= i < |Finish(RunFrom(Start, s))[j]| ==> Finish(RunFrom(Start, s))[j][i] != c
    decreases |s|
  {
    var st := RunFrom(Start, s);
    if s != [] {
      var init := s[..|s| - 1];
      CleanRun(init, c);
      var prev := RunFrom(Start, init);
      var x := s[|s| - 1];
      assert x != c || c == ' ' || c == '\t';
      StepClean(prev, x, c);
    }
    var f := Finish(st);
    forall j, i | 0 <= j < |f| && 0 <= i < |f[j]|
      ensures f[j][i] != c
    {
      if j == |st.tokens| {
        assert f[j] == st.current;
      } else {
        assert f[j] == st.tokens[j];
      }
    }
  }

  lemma StepClean(st: Scan, x: char, c: char)
    requires Clean(st, c)
    requires x != c || ((c == ' ' || c == '\t') && st.quote == NoQuote)
    requires (c == ' ' || c == '\t') ==> x != '"' && x != '\'' && st.quote == NoQuote
    ensures Clean(Step(st, x), c)
    ensures (c == ' ' || c == '\t') ==> Step(st, x).quote == NoQuote
  {
    var r := Step(st, x);
    forall j, i | 0 <= j < |r.tokens| && 0 <= i < |r.tokens[j]|
      ensures r.tokens[j][i] != c
    {
      if j < |st.tokens| {
        assert r.tokens[j] == st.tokens[j];
      } else {
        assert r.tokens[j] == st.current;
      }
    }
    forall i | 0 <= i < |r.current|
      ensures r.current[i] != c
    {
      if i < |st.current| {
        assert r.current[i] == st.current[i];
      }
    }
  }

  // ---------------------------------------------------------------------
  // The token list
  // ---------------------------------------------------------------------

  /** The token of a list node: its text and strtol's reading of it. */
  datatype Token = Token(text: string, integer: int)

  /** token_list_t: a token and the indices of its neighbours in the list's storage. */
  datatype Node = Node(token: Token, prev: Option<nat>, next: Option<nat>)

  /** The links of a list stored in order: node i has i - 1 before it and i + 1 after it. */
  predicate WellLinked(list: seq<Node>)
  {
    forall i :: 0 <= i < |list| ==>
      list[i].prev == (if i == 0 then None else Some(i - 1)) &&
      list[i].next == (if i == |list| - 1 then None else Some(i + 1))
  }

  /**
    append_list(back): a fresh zeroed node after back. The new node is
    stored at the end of the list; the result is its index.
   */
  function AppendList(list: seq<Node>, back: Option<nat>): (r: (seq<Node>, nat))
    requires back.Some? ==> back.value < |list|
    ensures |r.0| == |list| + 1 && r.1 == |list|
    ensures r.0[r.1] == Node(Token("", 0), back, None)
    ensures back.Some? ==> r.0[back.value] == list[back.value].(next := Some(r.1))
    ensures forall i :: 0 <= i < |list| && (back.None? || i != back.value) ==> r.0[i] == list[i]
  {
    var added := Node(Token("", 0), back, None);
    var linked := if back.Some? then list[back.value := list[back.value].(next := Some(|list|))] else list;
    (linked + [added], |list|)
  }

  /** Appending after the last node keeps a list well linked. */
  lemma AppendKeepsLinks(list: seq<Node>)
    requires WellLinked(list)
    ensures var back := if list == [] then None else Some(|list| - 1);
      WellLinked(AppendList(list, back).0)
  {
  }

  /** The list tokenize builds for the given token texts: one node per text, in order. */
  method BuildList(conv: Conversions, texts: seq<string>) returns (list: seq<Node>)
    ensures |list| == |texts| && WellLinked(list)
    ensures forall i :: 0 <= i < |texts| ==> list[i].token == Token(texts[i], conv.strtol(texts[i], 0))
  {
    list := [];
    var back: Option<nat> := None;
    var i := 0;
    while i < |texts|
      invariant 0 <= i <= |texts| && |list| == i && WellLinked(list)
      invariant back == if i == 0 then None else Some(i - 1)
      invariant forall j :: 0 <= j < i ==> list[j].token == Token(texts[j], conv.strtol(texts[j], 0))
    {
      AppendKeepsLinks(list);
      var appended := AppendList(list, back);
      var node := appended.1;
      list := appended.0;
      list := list[node := list[node].(token := Token(texts[i], conv.strtol(texts[i], 0)))];
      back := Some(node);
      i := i + 1;
    }
  }

  /**
    tokenize: the list of the command line's tokens with the index of its
    front node, or None (NULL) when the line has no tokens.
   */
  method Tokenize(conv: Conversions, line: string) returns (r: Option<(seq<Node>, nat)>)
    ensures r.None? <==> Split(line) == []
    ensures r.Some? ==> var (list, front) := r.value;
      front == 0 && |list| == |Split(line)| && WellLinked(list) &&
      forall i :: 0 <= i < |list| ==>
        list[i].token.text == Split(line)[i] && list[i].token.integer == conv.strtol(Split(line)[i], 0)
  {
    var texts := Split(line);
    if texts == [] {
      return None;
    }
    var list := BuildList(conv, texts);
    return Some((list, 0));
  }

  /** front_token: the prev links followed to the node with no predecessor. */
  method FrontToken(list: seq<Node>, node: Option<nat>) returns (r: Option<nat>)
    requires WellLinked(list) && (node.Some? ==> node.value < |list|)
    ensures node.None? ==> r.None?
    ensures node.Some? ==> r == Some(0) && list[0].prev.None?
  {
    if node.None? {
      return None;
    }
    var n: nat := node.value;
    while list[n].prev.Some?
      invariant n < |list|
      decreases n
    {
      assert list[n].prev == Some(n - 1);
      n := n - 1;
    }
    return Some(n);
  }

  /**
    offset_token: |offset| steps along the next links (offset > 0) or the
    prev links (offset <= 0), stopping early at the end of the list.
   */
  method OffsetToken(list: seq<Node>, node: Option<nat>, offset: int) returns (r: Option<nat>)
    requires WellLinked(list) && (node.Some? ==> node.value < |list|)
    ensures node.None? ==> r.None?
    ensures node.Some? ==>
      r == if 0 <= node.value + offset < |list| then Some(node.value + offset) else None
  {
    r := node;
    if r.None? {
      return;
    }
    var start := node.value;
    if offset > 0 {
      var i := 0;
      while i < offset && r.Some?
        invariant 0 <= i <= offset
        invariant r.Some? ==> r.value == start + i && r.value < |list|
        invariant r.None? ==> start + i == |list|
        decreases offset - i
      {
        r := list[r.value].next;
        i := i + 1;
        if i == offset {
          break;
        }
      }
    } else {
      var steps := -offset;
      var i := 0;
      while i < steps && r.Some?
        invariant 0 <= i <= steps
        invariant r.Some? ==> r.value == start - i && r.value < |list|
        invariant r.None? ==> start - i == -1
        decreases steps - i
      {
        r := list[r.value].prev;
        i := i + 1;
        if i == steps {
          break;
        }
      }
    }
  }

}
