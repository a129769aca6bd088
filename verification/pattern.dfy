/**
  The byte-pattern compiler and matcher (pattern.c). A token list is
  compiled into a pattern of entries, each a literal byte or a wildcard,
  and the pattern is searched for in a window of bytes.
 */
module Pattern {
  import opened Wrappers
  import opened Bytes
  import opened Libc

  /** struct pat_entry: a wildcard (both bytes 0xFF) or a literal byte. */
  datatype Entry = Wildcard | Literal(value: byte)

  /**
    struct pattern_s without its capacity: the entries appended so far and
    the counter the program keeps next to them.
   */
  datatype Pattern = Pattern(entries: seq<Entry>, count: nat)
  {
    /** The counter agrees with the entries. */
    predicate Valid()
    {
      count == |entries|
    }
  }

  const Empty := Pattern([], 0)

  /** The entries that match exactly the given bytes. */
  function Literals(bs: seq<byte>): (r: seq<Entry>)
    ensures |r| == |bs|
    ensures forall i :: 0 <= i < |bs| ==> r[i] == Literal(bs[i])
  {
    seq(|bs|, i requires 0 <= i < |bs| => Literal(bs[i]))
  }

  function Wildcards(n: nat): (r: seq<Entry>)
    ensures |r| == n
    ensures forall i :: 0 <= i < n ==> r[i] == Wildcard
  {
    seq(n, _ => Wildcard)
  }

  // ---------------------------------------------------------------------
  // Prefix tests and token classification
  // ---------------------------------------------------------------------

  /** has_prefix(s, prefix): both strings walked together until one ends. */
  function HasPrefix(s: string, prefix: string): (r: bool)
    ensures r <==> |prefix| <= |s| && s[..|prefix|] == prefix
  {
    if s != [] && prefix != [] then
      if s[0] != prefix[0] then false
      else
        assert prefix == [prefix[0]] + prefix[1..];
        assert |prefix| <= |s| ==> s[..|prefix|] == [s[0]] + s[1..][..|prefix| - 1];
        HasPrefix(s[1..], prefix[1..])
    else if s == [] && prefix != [] then false
    else prefix == []
  }

  /** The typed token kinds of pattern_generate, one per prefix. */
  datatype Kind =
    | Wild | I8 | UI8 | I16 | UI16 | I32 | UI32 | I64 | UI64 | F32 | F64
    | Chr | WideChr | Str | StrNul | WideStr | WideStrNul

  function Prefix(k: Kind): string
  {
    match k
    case Wild => "?"
    case I8 => "i8"
    case UI8 => "ui8"
    case I16 => "i16"
    case UI16 => "ui16"
    case I32 => "i32"
    case UI32 => "ui32"
    case I64 => "i64"
    case UI64 => "ui64"
    case F32 => "f32"
    case F64 => "f64"
    case Chr => "c"
    case WideChr => "wc"
    case Str => "s"
    case StrNul => "sn"
    case WideStr => "ws"
    case WideStrNul => "wsn"
  }

  /** The position of a kind's test in the program's chain of prefix tests. */
  function Rank(k: Kind): nat
  {
    match k
    case Wild => 0
    case I8 => 1
    case UI8 => 2
    case I16 => 3
    case UI16 => 4
    case I32 => 5
    case UI32 => 6
    case I64 => 7
    case UI64 => 8
    case F32 => 9
    case F64 => 10
    case Chr => 11
    case WideChr => 12
    case Str => 13
    case StrNul => 14
    case WideStr => 15
    case WideStrNul => 16
  }

  /** The kinds in the order pattern_generate tests their prefixes. */
  const Order: seq<Kind> :=
    [Wild, I8, UI8, I16, UI16, I32, UI32, I64, UI64, F32, F64, Chr, WideChr, Str, StrNul, WideStr, WideStrNul]

  lemma OrderRanks(k: Kind)
    ensures Rank(k) < |Order| && Order[Rank(k)] == k
  {
  }

  /**
    The branch pattern_generate takes for a token: the first prefix in test
    order that the token starts with, or None for the hexadecimal fallback.
   */
  function Classify(tok: string): (r: Option<Kind>)
    ensures r.Some? ==> HasPrefix(tok, Prefix(r.value))
    ensures forall k :: (r.None? || Rank(k) < Rank(r.value)) ==> !HasPrefix(tok, Prefix(k))
  {
    ClassifyFrom(tok, 0)
  }

  /** The chain of prefix tests, from the j-th test on. */
  function ClassifyFrom(tok: string, j: nat): (r: Option<Kind>)
    requires j <= |Order|
    ensures r.Some? ==> j <= Rank(r.value) && HasPrefix(tok, Prefix(r.value))
    ensures forall k :: j <= Rank(k) && (r.None? || Rank(k) < Rank(r.value)) ==> !HasPrefix(tok, Prefix(k))
    decreases |Order| - j
  {
    if j == |Order| then None
    else if HasPrefix(tok, Prefix(Order[j])) then
      OrderRanksAll();
      Some(Order[j])
    else
      OrderRanksAll();
      ClassifyFrom(tok, j + 1)
  }

  lemma OrderRanksAll()
    ensures forall k :: Rank(k) < |Order| && Order[Rank(k)] == k
  {
    forall k
      ensures Rank(k) < |Order| && Order[Rank(k)] == k
    {
      OrderRanks(k);
    }
  }

  /** A typed token whose prefix is the whole token; the wildcard prefix alone is allowed. */
  predicate Malformed(tok: string)
  {
    var k := Classify(tok);
    k.Some? && k.value != Wild && |tok| == |Prefix(k.value)|
  }

  // ---------------------------------------------------------------------
  // Appending entries
  // ---------------------------------------------------------------------

  /** append_entry, with allocation assumed to succeed. */
  function AppendEntry(p: Pattern, e: Entry): (r: Pattern)
    ensures r.entries == p.entries + [e] && r.count == p.count + 1
  {
    Pattern(p.entries + [e], p.count + 1)
  }

  /** append_byte */
  function AppendByte(p: Pattern, b: byte): (r: Pattern)
    ensures r.entries == p.entries + [Literal(b)] && r.count == p.count + 1
  {
    AppendEntry(p, Literal(b))
  }

  /** append_wildcard */
  function AppendWildcard(p: Pattern): (r: Pattern)
    ensures r.entries == p.entries + [Wildcard] && r.count == p.count + 1
  {
    AppendEntry(p, Wildcard)
  }

  /** append_memory: the bytes of a memory block appended one literal at a time. */
  function AppendMemory(p: Pattern, mem: seq<byte>): (r: Pattern)
    ensures r.entries == p.entries + Literals(mem)
    ensures r.count == p.count + |mem|
    decreases |mem|
  {
    if |mem| == 0 then
      assert p.entries + Literals(mem) == p.entries;
      p
    else
      LiteralsCons(p.entries, mem);
      AppendMemory(AppendByte(p, mem[0]), mem[1..])
  }

  lemma {:induction false} LiteralsCons(prior: seq<Entry>, mem: seq<byte>)
    requires |mem| > 0
    ensures prior + Literals(mem) == (prior + [Literal(mem[0])]) + Literals(mem[1..])
  {
    assert Literals(mem) == [Literal(mem[0])] + Literals(mem[1..]);
  }

  /** The wildcard loop of the '?' branch: one wildcard per decrement of the count. */
  function AppendWildcards(p: Pattern, n: nat): (r: Pattern)
    ensures r.entries == p.entries + Wildcards(n)
    ensures r.count == p.count + n
    decreases n
  {
    if n == 0 then p
    else
      var r := AppendWildcards(AppendWildcard(p), n - 1);
      assert Wildcards(n) == [Wildcard] + Wildcards(n - 1);
      r
  }

  /**
    vals.ui16 = *s for a C char: the char is signed on the targets the
    program is built for, so a byte from 0x80 up is sign-extended.
   */
  function WideUnit(c: char): bv16
  {
    var b := CharByte(c);
    if b >= 0x80 then 0xff00 | b as bv16 else b as bv16
  }

  /** The entries of a wide string: the two bytes of each character's 16-bit unit, in order. */
  function WideEntries(s: string): (r: seq<Entry>)
    ensures |r| == 2 * |s|
    decreases |s|
  {
    if s == [] then [] else Literals(Layout16(WideUnit(s[0]))) + WideEntries(s[1..])
  }

  /** Character i of a wide string sits at entries 2i and 2i + 1. */
  lemma {:induction false} WideEntriesAt(s: string, i: nat)
    requires i < |s|
    ensures WideEntries(s)[2 * i] == Literal(Layout16(WideUnit(s[i]))[0])
    ensures WideEntries(s)[2 * i + 1] == Literal(Layout16(WideUnit(s[i]))[1])
    decreases i
  {
    var head := Literals(Layout16(WideUnit(s[0])));
    if i > 0 {
      WideEntriesAt(s[1..], i - 1);
      assert WideEntries(s)[2 * i] == WideEntries(s[1..])[2 * (i - 1)];
      assert WideEntries(s)[2 * i + 1] == WideEntries(s[1..])[2 * (i - 1) + 1];
    }
  }

  /** The loop of the 'ws' branch: each character stored as a 16-bit unit. */
  function AppendWide(p: Pattern, s: string): (r: Pattern)
    ensures r.entries == p.entries + WideEntries(s)
    ensures r.count == p.count + 2 * |s|
    decreases |s|
  {
    if |s| == 0 then
      assert p.entries + WideEntries(s) == p.entries;
      p
    else
      WideEntriesCons(p.entries, s);
      AppendWide(AppendMemory(p, Layout16(WideUnit(s[0]))), s[1..])
  }

  lemma {:induction false} WideEntriesCons(prior: seq<Entry>, s: string)
    requires |s| > 0
    ensures prior + WideEntries(s) == (prior + Literals(Layout16(WideUnit(s[0])))) + WideEntries(s[1..])
  {
    var head, tail := Literals(Layout16(WideUnit(s[0]))), WideEntries(s[1..]);
    assert WideEntries(s) == head + tail;
    assert prior + (head + tail) == (prior + head) + tail;
  }

  // ---------------------------------------------------------------------
  // Compiling tokens
  // ---------------------------------------------------------------------

  /** The bytes of an integer token: the parse of its remainder, by the call the program makes for that kind. */
  function Parsed(conv: Conversions, k: Kind, rest: string): bv64
  {
    if k == UI8 then conv.strtoull(rest, 0) else conv.strtoll(rest, 0)
  }

  /** The wildcard count of a '?' token: 0 for a bare '?', else the base-0 parse of its remainder. */
  function WildCount(conv: Conversions, rest: string): nat
  {
    if rest == "" then 0 else conv.strtoull(rest, 0) as nat
  }

  /**
    What a token adds to the pattern, stated as entries: None for a typed
    prefix with nothing after it, the program's on_error exit.
   */
  function Contribution(conv: Conversions, tok: string): (r: Option<seq<Entry>>)
    ensures r.None? <==> Malformed(tok)
  {
    match Classify(tok)
    case None => Some([Literal(Low8(conv.strtoull(tok, 16)))])
    case Some(k) =>
      var rest := tok[|Prefix(k)|..];
      if k == Wild then Some(Wildcards(WildCount(conv, rest)))
      else if rest == "" then None
      else Some(Stored(conv, k, rest))
  }

  /** The entries of a typed token with a non-empty remainder. */
  function Stored(conv: Conversions, k: Kind, rest: string): seq<Entry>
    requires rest != ""
  {
    match k
    case Chr => [Literal(CharByte(rest[0]))]
    case WideStr => WideEntries(rest)
    case WideStrNul => WideEntries(rest + ['\0'])
    case _ => Literals(Block(conv, k, rest))
  }

  /**
    The memory block a typed token appends with one append_memory call: the
    first sizeof bytes of the value union after the parsed value is stored
    in the member of the token's type.
   */
  function Block(conv: Conversions, k: Kind, rest: string): seq<byte>
    requires rest != ""
  {
    var v := Parsed(conv, k, rest);
    match k
    case I8 => [Low8(v)]
    case UI8 => [Low8(v)]
    case I16 => Layout16(Low16(v))
    case UI16 => Layout16(Low16(v))
    case I32 => Layout32(Low32(v))
    case UI32 => Layout32(Low32(v))
    case I64 => Layout64(v)
    case UI64 => Layout64(v)
    case F32 => Layout32(conv.atof32(rest))
    case F64 => Layout64(conv.atof64(rest))
    case WideChr => Layout16(CharByte(rest[0]) as bv16)
    case StrNul => CharBytes(rest) + [0]
    case _ => CharBytes(rest)
  }

  /**
    One iteration of the token loop of pattern_generate, through the append
    helpers the program calls: the token's contribution is appended to the
    pattern built so far, or the call takes the on_error exit (None).
   */
  function Emit(conv: Conversions, p: Pattern, tok: string): (r: Option<Pattern>)
    ensures r.None? <==> Contribution(conv, tok).None?
    ensures r.Some? ==>
      var e := Contribution(conv, tok).value;
      r.value.entries == p.entries + e && r.value.count == p.count + |e|
  {
    match Classify(tok)
    case None =>
      Some(AppendByte(p, Low8(conv.strtoull(tok, 16))))
    case Some(k) =>
      var rest := tok[|Prefix(k)|..];
      if k == Wild then Some(AppendWildcards(p, WildCount(conv, rest)))
      else if rest == "" then None
      else Some(Store(conv, p, k, rest))
  }

  /** The branch of a typed token with a non-empty remainder. */
  function Store(conv: Conversions, p: Pattern, k: Kind, rest: string): (r: Pattern)
    requires rest != ""
    ensures r.entries == p.entries + Stored(conv, k, rest)
    ensures r.count == p.count + |Stored(conv, k, rest)|
  {
    match k
    case Chr => AppendByte(p, CharByte(rest[0]))
    case WideStr => AppendWide(p, rest)
    case WideStrNul => AppendWide(p, rest + ['\0'])
    case _ => AppendMemory(p, Block(conv, k, rest))
  }

  /** The entries one token contributes; none for a malformed one. */
  function TokenEntries(conv: Conversions, tok: string): seq<Entry>
  {
    match Contribution(conv, tok)
    case Some(e) => e
    case None => []
  }

  /** The entries of a token list: each token's entries, in order. */
  function Flatten(conv: Conversions, tokens: seq<string>): seq<Entry>
  {
    Concat(Runs(EntriesOf(conv), tokens))
  }

  /** TokenEntries as a function value. */
  function EntriesOf(conv: Conversions): string -> seq<Entry>
  {
    tok => TokenEntries(conv, tok)
  }

  /** The runs of entries of each token. */
  function Runs(f: string -> seq<Entry>, tokens: seq<string>): (r: seq<seq<Entry>>)
    ensures |r| == |tokens|
    ensures forall i :: 0 <= i < |tokens| ==> r[i] == f(tokens[i])
  {
    seq(|tokens|, i requires 0 <= i < |tokens| => f(tokens[i]))
  }

  /** The runs joined end to end. */
  function Concat(runs: seq<seq<Entry>>): seq<Entry>
    decreases |runs|
  {
    if runs == [] then [] else Concat(runs[..|runs| - 1]) + runs[|runs| - 1]
  }

  lemma {:induction false} ConcatAppend(a: seq<seq<Entry>>, b: seq<seq<Entry>>)
    ensures Concat(a + b) == Concat(a) + Concat(b)
    decreases |b|
  {
    if b == [] {
      assert a + b == a;
    } else {
      var b' := b[..|b| - 1];
      assert (a + b)[..|a + b| - 1] == a + b';
      ConcatAppend(a, b');
    }
  }

  /** Splitting a token list splits its entries. */
  lemma FlattenAppend(conv: Conversions, a: seq<string>, b: seq<string>)
    ensures Flatten(conv, a + b) == Flatten(conv, a) + Flatten(conv, b)
  {
    RunsAppend(EntriesOf(conv), a, b);
    ConcatAppend(Runs(EntriesOf(conv), a), Runs(EntriesOf(conv), b));
  }

  lemma RunsAppend(f: string -> seq<Entry>, a: seq<string>, b: seq<string>)
    ensures Runs(f, a + b) == Runs(f, a) + Runs(f, b)
  {
    assert forall i :: 0 <= i < |a + b| ==> Runs(f, a + b)[i] == (Runs(f, a) + Runs(f, b))[i];
  }

  /** One more token adds its entries at the end. */
  lemma FlattenStep(conv: Conversions, tokens: seq<string>, i: nat)
    requires i < |tokens|
    ensures Flatten(conv, tokens[..i + 1]) == Flatten(conv, tokens[..i]) + TokenEntries(conv, tokens[i])
  {
    var f := EntriesOf(conv);
    RunsAppend(f, tokens[..i], [tokens[i]]);
    assert tokens[..i + 1] == tokens[..i] + [tokens[i]];
    assert Runs(f, [tokens[i]]) == [TokenEntries(conv, tokens[i])];
  }

  lemma WellFormedStep(conv: Conversions, tokens: seq<string>, i: nat, next: Option<Pattern>)
    requires i < |tokens|
    requires forall j :: 0 <= j < i ==> !Malformed(tokens[j])
    requires next.None? <==> Contribution(conv, tokens[i]).None?
    requires next.Some?
    ensures forall j :: 0 <= j < i + 1 ==> !Malformed(tokens[j])
  {
  }

  /**
    pattern_generate: the pattern of a token list, or None when a token is
    malformed (whatever earlier tokens appended is then discarded). The
    size the program reports is the count of the result.
   */
  method Generate(conv: Conversions, tokens: seq<string>) returns (r: Option<Pattern>)
    ensures r.Some? <==> forall i :: 0 <= i < |tokens| ==> !Malformed(tokens[i])
    ensures r.Some? ==> r.value.entries == Flatten(conv, tokens) && r.value.Valid()
  {
    var p := Empty;
    var i := 0;
    while i < |tokens|
      invariant 0 <= i <= |tokens|
      invariant forall j :: 0 <= j < i ==> !Malformed(tokens[j])
      invariant p.entries == Flatten(conv, tokens[..i]) && p.Valid()
    {
      var next := Emit(conv, p, tokens[i]);
      if next.None? {
        return None;
      }
      WellFormedStep(conv, tokens, i, next);
      FlattenStep(conv, tokens, i);
      p := next.value;
      i := i + 1;
    }
    assert tokens[..i] == tokens;
    return Some(p);
  }

  // ---------------------------------------------------------------------
  // What each kind of token contributes
  // ---------------------------------------------------------------------

  /** The 'sn' and 'wsn' tests are never reached: 's' and 'ws' come first in the chain. */
  lemma {:induction false} NulVariantsUnreachable(tok: string)
    ensures HasPrefix(tok, "sn") ==> Classify(tok) == Some(Str)
    ensures HasPrefix(tok, "wsn") ==> Classify(tok) == Some(WideStr)
    ensures Classify(tok) != Some(StrNul) && Classify(tok) != Some(WideStrNul)
  {
    if HasPrefix(tok, "sn") {
      assert tok[0] == 's';
      forall k | Rank(k) < Rank(Str)
        ensures !HasPrefix(tok, Prefix(k))
      {
        assert Prefix(k)[0] != 's';
      }
      ClassifyIs(tok, Str);
    }
    if HasPrefix(tok, "wsn") {
      assert tok[0] == 'w' && tok[1] == 's';
      forall k | Rank(k) < Rank(WideStr)
        ensures !HasPrefix(tok, Prefix(k))
      {
        assert Prefix(k)[0] != 'w' || (|Prefix(k)| == 2 && Prefix(k)[1] == 'c');
      }
      ClassifyIs(tok, WideStr);
    }
    var r := Classify(tok);
    if r == Some(StrNul) || r == Some(WideStrNul) {
      assert HasPrefix(tok, Prefix(r.value));
    }
  }

  /** A token takes the branch of a prefix it starts with when no earlier prefix fits it. */
  lemma {:induction false} ClassifyIs(tok: string, k: Kind)
    requires HasPrefix(tok, Prefix(k))
    requires forall k' :: Rank(k') < Rank(k) ==> !HasPrefix(tok, Prefix(k'))
    ensures Classify(tok) == Some(k)
  {
    var r := Classify(tok);
    OrderRanks(k);
    OrderRanks(r.value);
  }


  /**
    '?N' contributes N wildcards, N the base-0 parse of the text after '?';
    a bare '?' contributes none, and neither is ever malformed.
   */
  lemma {:induction false} WildcardRun(conv: Conversions, tok: string)
    requires Classify(tok) == Some(Wild)
    ensures !Malformed(tok)
    ensures TokenEntries(conv, tok) == Wildcards(if tok == "?" then 0 else conv.strtoull(tok[1..], 0) as nat)
  {
    if tok != "?" {
      assert tok[1..] != "";
    }
  }

  /** The integer width, in bytes, of an integer kind. */
  function Width(k: Kind): nat
  {
    match k
    case I8 => 1
    case UI8 => 1
    case I16 => 2
    case UI16 => 2
    case I32 => 4
    case UI32 => 4
    case I64 => 8
    case UI64 => 8
    case _ => 0
  }

  /**
    An 'iN' or 'uiN' token with a remainder contributes N/8 literals: the
    parsed value modulo 2^N, least significant byte first.
   */
  lemma {:induction false} IntegerLiteral(conv: Conversions, tok: string, k: Kind)
    requires Classify(tok) == Some(k) && Width(k) > 0
    requires |tok| > |Prefix(k)|
    ensures var v := Parsed(conv, k, tok[|Prefix(k)|..]);
      TokenEntries(conv, tok) == Literals(Layout64(v)[..Width(k)])
  {
    var v := Parsed(conv, k, tok[|Prefix(k)|..]);
    LowIsLayoutPrefix(v);
    assert Layout64(v)[..8] == Layout64(v);
  }

  /** The literal read back as the host reads it: the parse truncated to the kind's width. */
  lemma {:induction false} IntegerReadsBack(conv: Conversions, tok: string, k: Kind)
    requires Classify(tok) == Some(k) && Width(k) > 0
    requires |tok| > |Prefix(k)|
    ensures var v, e := Parsed(conv, k, tok[|Prefix(k)|..]), TokenEntries(conv, tok);
      |e| == Width(k) && (forall i :: 0 <= i < |e| ==> e[i].Literal?) &&
      var bs := seq(|e|, i requires 0 <= i < |e| => e[i].value);
      (Width(k) == 1 ==> bs[0] == Low8(v)) &&
      (Width(k) == 2 ==> Le16(bs) == Low16(v)) &&
      (Width(k) == 4 ==> Le32(bs) == Low32(v)) &&
      (Width(k) == 8 ==> Le64(bs) == v)
  {
    var v, e := Parsed(conv, k, tok[|Prefix(k)|..]), TokenEntries(conv, tok);
    IntegerLiteral(conv, tok, k);
    var bs := seq(|e|, i requires 0 <= i < |e| => e[i].value);
    assert bs == Layout64(v)[..Width(k)];
    LayoutPrefixReadsBack(v, Width(k));
  }

  /** The first w bytes of a value's layout read back as the value truncated to w bytes. */
  lemma LayoutPrefixReadsBack(v: bv64, w: nat)
    requires w == 1 || w == 2 || w == 4 || w == 8
    ensures var bs := Layout64(v)[..w];
      (w == 1 ==> bs[0] == Low8(v)) &&
      (w == 2 ==> Le16(bs) == Low16(v)) &&
      (w == 4 ==> Le32(bs) == Low32(v)) &&
      (w == 8 ==> Le64(bs) == v)
  {
    LowIsLayoutPrefix(v);
    if w == 2 {
      ReadLayout(Low16(v), 0, 0);
    } else if w == 4 {
      ReadLayout(0, Low32(v), 0);
    } else if w == 8 {
      ReadLayout(0, 0, v);
      assert Layout64(v)[..8] == Layout64(v);
    }
  }

  /** Character tokens: 'c' one byte, 'wc' the byte and a zero, 's' every byte with no terminator. */
  lemma CharLiterals(conv: Conversions, tok: string)
    requires !Malformed(tok)
    ensures Classify(tok) == Some(Chr) ==> TokenEntries(conv, tok) == [Literal(CharByte(tok[1]))]
    ensures Classify(tok) == Some(WideChr) ==> TokenEntries(conv, tok) == [Literal(CharByte(tok[2])), Literal(0)]
    ensures Classify(tok) == Some(Str) ==> TokenEntries(conv, tok) == Literals(CharBytes(tok[1..]))
  {
    var k := Classify(tok);
    if k == Some(Chr) {
      ChrLiteral(conv, tok);
    } else if k == Some(WideChr) {
      WideChrLiteral(conv, tok);
    } else if k == Some(Str) {
      StrLiteral(conv, tok);
    }
  }

  lemma {:induction false} ChrLiteral(conv: Conversions, tok: string)
    requires Classify(tok) == Some(Chr) && !Malformed(tok)
    ensures |tok| > 1 && TokenEntries(conv, tok) == [Literal(CharByte(tok[1]))]
  {
  }

  lemma {:induction false} WideChrLiteral(conv: Conversions, tok: string)
    requires Classify(tok) == Some(WideChr) && !Malformed(tok)
    ensures |tok| > 2 && TokenEntries(conv, tok) == [Literal(CharByte(tok[2])), Literal(0)]
  {
    var b := CharByte(tok[2]);
    assert Layout16(b as bv16) == [b, 0];
  }

  lemma {:induction false} StrLiteral(conv: Conversions, tok: string)
    requires Classify(tok) == Some(Str) && !Malformed(tok)
    ensures |tok| > 1 && TokenEntries(conv, tok) == Literals(CharBytes(tok[1..]))
  {
  }

  /** 'f32' and 'f64' tokens contribute the 4 or 8 bytes of the float atof yields, least significant first. */
  lemma FloatLiterals(conv: Conversions, tok: string)
    requires !Malformed(tok)
    ensures Classify(tok) == Some(F32) ==> TokenEntries(conv, tok) == Literals(Layout32(conv.atof32(tok[3..])))
    ensures Classify(tok) == Some(F64) ==> TokenEntries(conv, tok) == Literals(Layout64(conv.atof64(tok[3..])))
  {
    var k := Classify(tok);
    if k == Some(F32) {
      F32Literal(conv, tok);
    } else if k == Some(F64) {
      F64Literal(conv, tok);
    }
  }

  lemma {:induction false} F32Literal(conv: Conversions, tok: string)
    requires Classify(tok) == Some(F32) && !Malformed(tok)
    ensures |tok| > 3 && TokenEntries(conv, tok) == Literals(Layout32(conv.atof32(tok[3..])))
  {
  }

  lemma {:induction false} F64Literal(conv: Conversions, tok: string)
    requires Classify(tok) == Some(F64) && !Malformed(tok)
    ensures |tok| > 3 && TokenEntries(conv, tok) == Literals(Layout64(conv.atof64(tok[3..])))
  {
  }

  /**
    A 'ws' token contributes two entries per character after the prefix:
    the character's byte, then its high byte, which is 0 for ASCII text and
    0xFF, by sign extension, from byte 0x80 up.
   */
  lemma {:induction false} WideString(conv: Conversions, tok: string)
    requires Classify(tok) == Some(WideStr) && !Malformed(tok)
    ensures var rest, e := tok[2..], TokenEntries(conv, tok);
      |e| == 2 * |rest| &&
      forall i :: 0 <= i < |rest| ==>
        e[2 * i] == Literal(CharByte(rest[i])) &&
        e[2 * i + 1] == Literal(if CharByte(rest[i]) >= 0x80 then 0xff else 0) &&
        ((rest[i] as int) < 0x80 ==> e[2 * i + 1] == Literal(0))
  {
    var rest, e := tok[2..], TokenEntries(conv, tok);
    assert e == WideEntries(rest);
    forall i | 0 <= i < |rest|
      ensures e[2 * i] == Literal(CharByte(rest[i]))
      ensures e[2 * i + 1] == Literal(if CharByte(rest[i]) >= 0x80 then 0xff else 0)
      ensures (rest[i] as int) < 0x80 ==> e[2 * i + 1] == Literal(0)
    {
      WideEntriesAt(rest, i);
      WideUnitBytes(rest[i]);
    }
  }

  /** The bytes of a character's 16-bit unit: its own byte, then the sign extension. */
  lemma WideUnitBytes(c: char)
    ensures Layout16(WideUnit(c)) == [CharByte(c), if CharByte(c) >= 0x80 then 0xff else 0]
    ensures (c as int) < 0x80 ==> CharByte(c) < 0x80
  {
    var n := (c as int) % 256;
    assert CharByte(c) == n as byte;
    if (c as int) < 0x80 {
      assert n == c as int;
      assert n as byte < 0x80;
    }
  }

  /** A token matching no prefix contributes one literal: its base-16 parse truncated to 8 bits. */
  lemma {:induction false} HexFallback(conv: Conversions, tok: string)
    requires Classify(tok) == None
    ensures !Malformed(tok)
    ensures TokenEntries(conv, tok) == [Literal(Low8(conv.strtoull(tok, 16)))]
  {
  }

  // ---------------------------------------------------------------------
  // Matching
  // ---------------------------------------------------------------------

  predicate EntryMatches(e: Entry, b: byte)
  {
    e.Wildcard? || e.value == b
  }

  /** The pattern lies inside the first max bytes at offset q and every entry matches its byte. */
  predicate MatchesAt(pat: seq<Entry>, bytes: seq<byte>, max: nat, q: nat)
    requires max <= |bytes|
  {
    q + |pat| <= max && forall i :: 0 <= i < |pat| ==> EntryMatches(pat[i], bytes[q + i])
  }

  /** The leftmost offset from q on at which the pattern matches: the reference for the search. */
  function FirstMatchFrom(pat: seq<Entry>, bytes: seq<byte>, max: nat, q: nat): (r: Option<nat>)
    requires max <= |bytes|
    ensures r.Some? ==> q <= r.value && MatchesAt(pat, bytes, max, r.value)
    ensures forall q' :: q <= q' && (r.None? || q' < r.value) ==> !MatchesAt(pat, bytes, max, q')
    decreases max - q
  {
    if q + |pat| > max then None
    else if MatchesAt(pat, bytes, max, q) then Some(q)
    else FirstMatchFrom(pat, bytes, max, q + 1)
  }

  function FirstMatch(pat: seq<Entry>, bytes: seq<byte>, max: nat): (r: Option<nat>)
    requires max <= |bytes|
  {
    FirstMatchFrom(pat, bytes, max, 0)
  }

  /**
    pattern_find_next: the sliding search of the program, with its cursor
    into the data (test), the next start offset (next), the entry being
    matched (tomatch), the entries left (remaining) and the bytes left to
    search (budget, the decremented maxsearch).
   */
  method FindNext(pat: Pattern, bytes: seq<byte>, maxSearch: nat) returns (r: Option<nat>)
    requires pat.Valid() && maxSearch <= |bytes|
    ensures r.Some? ==> MatchesAt(pat.entries, bytes, maxSearch, r.value)
    ensures r.Some? ==> forall q: nat :: q < r.value ==> !MatchesAt(pat.entries, bytes, maxSearch, q)
    ensures r.None? ==> forall q: nat :: !MatchesAt(pat.entries, bytes, maxSearch, q)
    ensures r == FirstMatch(pat.entries, bytes, maxSearch)
  {
    var test: nat, next: nat, tomatch: nat, remaining: nat, budget: nat := 0, 1, 0, pat.count, maxSearch;
    while remaining <= budget && remaining != 0
      invariant 1 <= next && budget + (next - 1) == maxSearch
      invariant tomatch + remaining == |pat.entries| && test == next - 1 + tomatch
      invariant tomatch > 0 ==> next - 1 + |pat.entries| <= maxSearch
      invariant |pat.entries| == 0 ==> next == 1
      invariant forall i :: 0 <= i < tomatch ==> EntryMatches(pat.entries[i], bytes[next - 1 + i])
      invariant forall q: nat :: q < next - 1 ==> !MatchesAt(pat.entries, bytes, maxSearch, q)
      decreases budget, remaining
    {
      var m := pat.entries[tomatch];
      assert test < maxSearch;
      var b := bytes[test];
      if m.Literal? && m.value != b {
        assert !MatchesAt(pat.entries, bytes, maxSearch, next - 1) by {
          assert !EntryMatches(pat.entries[tomatch], bytes[next - 1 + tomatch]);
        }
        test := next;
        next := next + 1;
        budget := budget - 1;
        tomatch := 0;
        remaining := pat.count;
        continue;
      }
      test := test + 1;
      tomatch := tomatch + 1;
      remaining := remaining - 1;
    }
    if remaining != 0 {
      assert forall q: nat :: q >= next - 1 ==> !MatchesAt(pat.entries, bytes, maxSearch, q);
      r := None;
    } else {
      r := Some(next - 1);
    }
    FirstMatchUnique(pat.entries, bytes, maxSearch, r);
  }

  /** An answer that is leftmost, or None with no match at all, is the reference answer. */
  lemma FirstMatchUnique(pat: seq<Entry>, bytes: seq<byte>, max: nat, r: Option<nat>)
    requires max <= |bytes|
    requires r.Some? ==> MatchesAt(pat, bytes, max, r.value)
    requires r.Some? ==> forall q: nat :: q < r.value ==> !MatchesAt(pat, bytes, max, q)
    requires r.None? ==> forall q: nat :: !MatchesAt(pat, bytes, max, q)
    ensures r == FirstMatch(pat, bytes, max)
  {
  }

  /** The search reads nothing at or past max: only the first max bytes decide it. */
  lemma SearchReadsWindowOnly(pat: seq<Entry>, bytes: seq<byte>, max: nat)
    requires max <= |bytes|
    ensures FirstMatch(pat, bytes, max) == FirstMatch(pat, bytes[..max], max)
  {
    forall q: nat
      ensures MatchesAt(pat, bytes, max, q) == MatchesAt(pat, bytes[..max], max, q)
    {
    }
    FirstMatchUnique(pat, bytes[..max], max, FirstMatch(pat, bytes, max));
  }

  /** The empty pattern is found at offset 0, even in an empty window. */
  lemma EmptyPatternAtZero(bytes: seq<byte>, max: nat)
    requires max <= |bytes|
    ensures FirstMatch([], bytes, max) == Some(0)
  {
  }

  /**
    Turning a literal into a wildcard keeps every match, so the first match
    of the relaxed pattern is never later.
   */
  lemma RelaxKeepsMatches(pat: seq<Entry>, bytes: seq<byte>, max: nat, j: nat)
    requires max <= |bytes| && j < |pat|
    ensures forall q: nat :: MatchesAt(pat, bytes, max, q) ==> MatchesAt(pat[j := Wildcard], bytes, max, q)
    ensures FirstMatch(pat, bytes, max).Some? ==>
      FirstMatch(pat[j := Wildcard], bytes, max).Some? &&
      FirstMatch(pat[j := Wildcard], bytes, max).value <= FirstMatch(pat, bytes, max).value
  {
    var relaxed := pat[j := Wildcard];
    forall q: nat | MatchesAt(pat, bytes, max, q)
      ensures MatchesAt(relaxed, bytes, max, q)
    {
      assert forall i :: 0 <= i < |pat| ==> EntryMatches(relaxed[i], bytes[q + i]) by {
        forall i | 0 <= i < |pat|
          ensures EntryMatches(relaxed[i], bytes[q + i])
        {
          assert i != j ==> relaxed[i] == pat[i];
        }
      }
    }
    var f := FirstMatch(pat, bytes, max);
    if f.Some? {
      assert MatchesAt(relaxed, bytes, max, f.value);
    }
  }

  /** The search of the program's usage: FF followed by a wildcard, in 00 FF 10 FF 20, is found at 1. */
  lemma SearchExample()
    ensures FirstMatch([Literal(0xff), Wildcard], [0x00, 0xff, 0x10, 0xff, 0x20], 5) == Some(1)
  {
    var pat: seq<Entry> := [Literal(0xff), Wildcard];
    var bytes: seq<byte> := [0x00, 0xff, 0x10, 0xff, 0x20];
    assert !EntryMatches(pat[0], bytes[0]);
    assert MatchesAt(pat, bytes, 5, 1);
  }

}
