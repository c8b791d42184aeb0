/** Path templates, the regular expressions they are rewritten to, and what these match. */
module PathPatterns {
  // Regular expressions: syntax, reading and meaning

  datatype Regex = Empty | Chr(c: char) | NotSlash | Group(r: Regex) | Plus(r: Regex) | Cat(a: Regex, b: Regex)

  /** The whole of `s` matches. */
  predicate Matches(r: Regex, s: string)
    decreases |s|, r
  {
    match r
    case Empty => s == ""
    case Chr(c) => s == [c]
    case NotSlash => |s| == 1 && s[0] != '/'
    case Group(g) => Matches(g, s)
    case Plus(g) => Matches(g, s) || exists k :: 0 < k < |s| && Matches(g, s[..k]) && Matches(r, s[k..])
    case Cat(a, b) => exists k :: 0 <= k <= |s| && Matches(a, s[..k]) && Matches(b, s[k..])
  }

  predicate IsMeta(c: char) {
    c in "\\^$.|?*+()[]{}"
  }

  datatype Reading = Reading(regex: Regex, rest: string) | Unreadable

  /** Reads a concatenation up to a closing parenthesis or the end: characters, `[^/]`, groups and `+`. */
  function Read(s: string): (r: Reading)
    ensures r.Reading? ==> |r.rest| <= |s|
    decreases |s|, 1
  {
    if s == "" || s[0] == ')' then Reading(Empty, s)
    else
      var atom := ReadAtom(s);
      if atom.Unreadable? then Unreadable
      else
        var quantified := atom.rest != "" && atom.rest[0] == '+';
        var tail := Read(if quantified then atom.rest[1..] else atom.rest);
        if tail.Unreadable? then Unreadable
        else Reading(Cat(if quantified then Plus(atom.regex) else atom.regex, tail.regex), tail.rest)
  }

  function ReadAtom(s: string): (r: Reading)
    requires s != ""
    ensures r.Reading? ==> |r.rest| < |s|
    decreases |s|, 0
  {
    if s[0] == '(' then
      var inner := Read(s[1..]);
      if inner.Unreadable? || inner.rest == "" || inner.rest[0] != ')' then Unreadable
      else Reading(Group(inner.regex), inner.rest[1..])
    else if |s| >= 4 && s[..4] == "[^/]" then Reading(NotSlash, s[4..])
    else if IsMeta(s[0]) then Unreadable
    else Reading(Chr(s[0]), s[1..])
  }

  /** `path.matches(expression)`, for the expressions that can be read. */
  predicate PathMatches(expression: string, path: string) {
    var r := Read(expression);
    r.Reading? && r.rest == "" && Matches(r.regex, path)
  }

  /** The characters that stand for something else than themselves. */
  lemma MetaCharacters(c: char)
    ensures IsMeta(c) <==>
      c in {'\\', '^', '$', '.', '|', '?', '*', '+', '(', ')', '[', ']', '{', '}'}
  {
  }

  // Writing what is read

  function Show(r: Regex): string {
    match r
    case Empty => ""
    case Chr(c) => [c]
    case NotSlash => "[^/]"
    case Group(g) => "(" + Show(g) + ")"
    case Plus(g) => Show(g) + "+"
    case Cat(a, b) => Show(a) + Show(b)
  }

  predicate IsAtom(r: Regex) {
    match r
    case Chr(c) => !IsMeta(c)
    case NotSlash => true
    case Group(g) => IsSequence(g)
    case _ => false
  }

  /** A concatenation of atoms, each with a `+` or without. */
  predicate IsSequence(r: Regex) {
    match r
    case Empty => true
    case Cat(a, b) => (IsAtom(a) || (a.Plus? && IsAtom(a.r))) && IsSequence(b)
    case _ => false
  }

  predicate Ends(t: string) {
    t == "" || t[0] == ')'
  }

  lemma {:induction false} ShowBegins(a: Regex)
    requires IsAtom(a)
    ensures Show(a) != "" && Show(a)[0] != '+' && Show(a)[0] != ')'
  {
  }

  lemma SequenceBegins(r: Regex, t: string)
    requires IsSequence(r) && Ends(t)
    ensures Show(r) + t != "" ==> (Show(r) + t)[0] != '+'
  {
    hide IsAtom;
    if r.Cat? {
      var atom := if r.a.Plus? then r.a.r else r.a;
      if IsAtom(r.a) {
        NotPlus(r.a);
      }
      ShowBegins(atom);
      assert (Show(r) + t)[0] == Show(atom)[0];
    } else {
      assert Show(r) + t == t;
    }
  }

  lemma {:induction false} ReadAtomOfShow(a: Regex, t: string)
    requires IsAtom(a)
    ensures Show(a) + t != "" && ReadAtom(Show(a) + t) == Reading(a, t)
    decreases a, 0
  {
    hide Read;
    var s := Show(a) + t;
    match a
    case Chr(c) =>
      assert s[1..] == t;
    case NotSlash =>
      assert s[..4] == "[^/]" && s[4..] == t;
    case Group(g) =>
      assert s[1..] == Show(g) + (")" + t);
      ReadOfShow(g, ")" + t);
      assert (")" + t)[1..] == t;
  }

  lemma ReadRepeated(head: string, atom: Regex, t: string)
    requires head != "" && head[0] != ')'
    requires ReadAtom(head + ("+" + t)) == Reading(atom, "+" + t) && Read(t).Reading?
    ensures Read(head + ("+" + t)) == Reading(Cat(Plus(atom), Read(t).regex), Read(t).rest)
  {
    hide ReadAtom;
    assert ("+" + t)[1..] == t;
  }

  lemma ReadEnd(t: string)
    requires Ends(t)
    ensures Read(t) == Reading(Empty, t)
  {
  }

  lemma ShowJoins(a: Regex, b: Regex, t: string)
    ensures Show(Cat(a, b)) + t == Show(a) + (Show(b) + t)
    ensures Show(Cat(Plus(a), b)) + t == Show(a) + ("+" + (Show(b) + t))
  {
  }

  /** What is written is read back. */
  lemma {:induction false} ReadOfShow(r: Regex, t: string)
    requires IsSequence(r) && Ends(t)
    ensures Read(Show(r) + t) == Reading(r, t)
    decreases r, 1
  {
    hide Read, ReadAtom, IsAtom, Show, Ends;
    if r.Empty? {
      ReadEnd(t);
      ShowNothing();
      assert "" + t == t;
    } else {
      var rest := Show(r.b) + t;
      ReadOfShow(r.b, t);
      if IsAtom(r.a) {
        ShowBegins(r.a);
        ShowJoins(r.a, r.b, t);
        SequenceBegins(r.b, t);
        ReadAtomOfShow(r.a, rest);
        ReadStep(Show(r.a), r.a, rest);
      } else {
        ShowBegins(r.a.r);
        ShowJoins(r.a.r, r.b, t);
        ReadAtomOfShow(r.a.r, "+" + rest);
        ReadRepeated(Show(r.a.r), r.a.r, rest);
      }
    }
  }

  lemma ShowNothing()
    ensures Show(Empty) == ""
  {
  }

  lemma {:induction false} ShowOfReadAtom(s: string)
    requires s != "" && ReadAtom(s).Reading?
    ensures IsAtom(ReadAtom(s).regex) && Show(ReadAtom(s).regex) + ReadAtom(s).rest == s
    decreases |s|, 0
  {
    hide Read, IsMeta;
    if s[0] == '(' {
      ShowOfRead(s[1..]);
    }
  }

  /** What follows the first atom of a text and its `+`, if it has one. */
  function AfterAtom(atom: Reading): string
    requires atom.Reading?
  {
    if atom.rest != "" && atom.rest[0] == '+' then atom.rest[1..] else atom.rest
  }

  lemma ReadParts(s: string)
    requires s != "" && s[0] != ')' && Read(s).Reading?
    ensures ReadAtom(s).Reading? && Read(AfterAtom(ReadAtom(s))).Reading?
    ensures var atom, tail := ReadAtom(s), Read(AfterAtom(ReadAtom(s)));
      var quantified := atom.rest != "" && atom.rest[0] == '+';
      Read(s) == Reading(Cat(if quantified then Plus(atom.regex) else atom.regex, tail.regex), tail.rest)
  {
    hide ReadAtom;
  }

  /** What is read is written back, up to a closing parenthesis or the end. */
  lemma {:induction false} ShowOfRead(s: string)
    requires Read(s).Reading?
    ensures IsSequence(Read(s).regex) && Show(Read(s).regex) + Read(s).rest == s && Ends(Read(s).rest)
    decreases |s|, 1
  {
    hide Read, ReadAtom, IsAtom, Show;
    if s == "" || s[0] == ')' {
      ReadEnd(s);
      ShowNothing();
    } else {
      ReadParts(s);
      var atom := ReadAtom(s);
      ShowOfReadAtom(s);
      var rest := AfterAtom(atom);
      ShowOfRead(rest);
      NotPlus(atom.regex);
      ShowJoins(atom.regex, Read(rest).regex, Read(rest).rest);
      assert atom.rest != "" && atom.rest[0] == '+' ==> atom.rest == "+" + rest;
    }
  }

  lemma NotPlus(a: Regex)
    requires IsAtom(a)
    ensures !a.Plus?
  {
  }

  /** An expression matches what the concatenation matches that it is the writing of; without one it matches nothing. */
  lemma PathMatchesExactly(expression: string, path: string)
    ensures PathMatches(expression, path) <==>
      exists r :: IsSequence(r) && Show(r) == expression && Matches(r, path)
  {
    hide Read, IsSequence, Show, Matches;
    if PathMatches(expression, path) {
      ShowOfRead(expression);
      assert Show(Read(expression).regex) + "" == Show(Read(expression).regex);
    }
    forall r | IsSequence(r) && Show(r) == expression ensures Read(expression) == Reading(r, "") {
      ReadOfShow(r, "");
      assert Show(r) + "" == Show(r);
    }
  }

  // The rewrite

  const WILDCARD := "(([^/])+)"

  /** The number of characters before the first slash. */
  function SegmentLength(p: string): (n: nat)
    ensures n <= |p|
    ensures forall i :: 0 <= i < n ==> p[i] != '/'
    ensures n < |p| ==> p[n] == '/'
  {
    if p == "" || p[0] == '/' then 0 else 1 + SegmentLength(p[1..])
  }

  /** The last closing brace before `n` that leaves a character between itself and the first character; 0 if none. */
  function LastBrace(p: string, n: nat): (j: nat)
    requires n <= |p|
    ensures j == 0 || (2 <= j < n && p[j] == '}')
    ensures forall i :: 2 <= i < n && p[i] == '}' ==> i <= j
  {
    if n <= 2 then 0 else if p[n - 1] == '}' then n - 1 else LastBrace(p, n - 1)
  }

  /** How much of `p` the pattern `\{(([^/])+\})` matches at its start; 0 when it does not. */
  function TokenLength(p: string): (n: nat)
    ensures n <= |p|
  {
    if p == "" || p[0] != '{' then 0
    else var j := LastBrace(p, SegmentLength(p)); if j == 0 then 0 else j + 1
  }

  /** `path.replaceAll("\\{(([^/])+\\})", "(([^/])+)")`. */
  function GeneratePathExpression(p: string): string
    decreases |p|
  {
    if p == "" then ""
    else if TokenLength(p) > 0 then WILDCARD + GeneratePathExpression(p[TokenLength(p)..])
    else [p[0]] + GeneratePathExpression(p[1..])
  }

  // Templates as tokens

  datatype Token = Lit(c: char) | Wild

  function Tokens(p: string): seq<Token>
    decreases |p|
  {
    if p == "" then []
    else if TokenLength(p) > 0 then [Wild] + Tokens(p[TokenLength(p)..])
    else [Lit(p[0])] + Tokens(p[1..])
  }

  /** No character outside the braces means anything to a regular expression. */
  predicate PlainTemplate(p: string) {
    forall i :: 0 <= i < |Tokens(p)| && Tokens(p)[i].Lit? ==> !IsMeta(Tokens(p)[i].c)
  }

  const WILD := Group(Cat(Plus(Group(Cat(NotSlash, Empty))), Empty))

  function Compile(ts: seq<Token>): Regex {
    if ts == [] then Empty
    else Cat(if ts[0].Wild? then WILD else Chr(ts[0].c), Compile(ts[1..]))
  }

  lemma ReadClass(t: string)
    ensures Read("[^/])+)" + t) == Reading(Cat(NotSlash, Empty), ")+)" + t)
  {
    var s := "[^/])+)" + t;
    assert s[..4] == "[^/]";
    assert s[4..] == ")+)" + t;
    assert Read(")+)" + t) == Reading(Empty, ")+)" + t);
  }

  lemma ReadRepeat(t: string)
    ensures Read("([^/])+)" + t) == Reading(Cat(Plus(Group(Cat(NotSlash, Empty))), Empty), ")" + t)
  {
    var s := "([^/])+)" + t;
    assert s[1..] == "[^/])+)" + t;
    ReadClass(t);
    assert (")+)" + t)[1..] == "+)" + t;
    assert ("+)" + t)[1..] == ")" + t;
    assert Read(")" + t) == Reading(Empty, ")" + t);
    assert ReadAtom(s) == Reading(Group(Cat(NotSlash, Empty)), "+)" + t);
  }

  lemma ReadWildcard(t: string)
    ensures ReadAtom(WILDCARD + t) == Reading(WILD, t)
  {
    var s := WILDCARD + t;
    assert s[1..] == "([^/])+)" + t;
    ReadRepeat(t);
    assert (")" + t)[1..] == t;
  }

  lemma ExpressionHead(p: string)
    requires p != "" && PlainTemplate(p)
    ensures GeneratePathExpression(p)[0] != '+' && GeneratePathExpression(p)[0] != ')'
  {
    hide TokenLength;
    assert Tokens(p)[0].Lit? ==> !IsMeta(Tokens(p)[0].c);
  }

  lemma PlainTail(p: string, n: nat)
    requires p != "" && PlainTemplate(p) && n == (if TokenLength(p) > 0 then TokenLength(p) else 1)
    ensures PlainTemplate(p[n..])
  {
    hide TokenLength, IsMeta;
    var ts := Tokens(p);
    assert ts[1..] == Tokens(p[n..]);
    forall i | 0 <= i < |ts[1..]| && ts[1..][i].Lit? ensures !IsMeta(ts[1..][i].c) {
      assert ts[i + 1] == ts[1..][i];
    }
  }

  /** The expression of a plain template reads as the compiled template. */
  lemma {:induction false} ExpressionReadsAsCompiled(p: string)
    requires PlainTemplate(p)
    ensures Read(GeneratePathExpression(p)) == Reading(Compile(Tokens(p)), "")
    decreases |p|
  {
    hide TokenLength, PlainTemplate, Read;
    if p == "" {
      ReadNothing();
    } else {
      var n := if TokenLength(p) > 0 then TokenLength(p) else 1;
      var rest := GeneratePathExpression(p[n..]);
      PlainTail(p, n);
      ExpressionReadsAsCompiled(p[n..]);
      if p[n..] != "" {
        ExpressionHead(p[n..]);
      }
      hide Tokens, GeneratePathExpression, Compile;
      CompileStep(HeadToken(p), Tokens(p[n..]));
      TokensStep(p);
      if TokenLength(p) > 0 {
        WildcardStep(p);
        ReadWildcard(rest);
        ReadStep(WILDCARD, WILD, rest);
      } else {
        LiteralStep(p);
        HeadIsPlain(p);
        ReadPlain(p[0], rest);
        ReadStep([p[0]], Chr(p[0]), rest);
      }
    }
  }

  lemma ReadNothing()
    ensures Read("") == Reading(Empty, "") && Compile([]) == Empty && Tokens("") == []
    ensures GeneratePathExpression("") == ""
  {
  }

  lemma CompileStep(t: Token, ts: seq<Token>)
    ensures Compile([t] + ts) == Cat(if t.Wild? then WILD else Chr(t.c), Compile(ts))
  {
    assert ([t] + ts)[1..] == ts;
  }

  lemma WildcardStep(p: string)
    requires p != "" && TokenLength(p) > 0
    ensures GeneratePathExpression(p) == WILDCARD + GeneratePathExpression(p[TokenLength(p)..])
  {
    hide TokenLength;
  }

  lemma LiteralStep(p: string)
    requires p != "" && TokenLength(p) == 0
    ensures GeneratePathExpression(p) == [p[0]] + GeneratePathExpression(p[1..])
  {
    hide TokenLength;
  }

  lemma ReadPlain(c: char, t: string)
    requires !IsMeta(c)
    ensures ReadAtom([c] + t) == Reading(Chr(c), t)
  {
    assert ([c] + t)[1..] == t;
    hide Read;
  }

  /** An atom that nothing quantifies is read before the rest. */
  lemma ReadStep(head: string, atom: Regex, t: string)
    requires head != "" && head[0] != ')' && (t == "" || t[0] != '+')
    requires ReadAtom(head + t) == Reading(atom, t) && Read(t).Reading?
    ensures Read(head + t) == Reading(Cat(atom, Read(t).regex), Read(t).rest)
  {
    hide ReadAtom;
  }

  lemma HeadIsPlain(p: string)
    requires p != "" && PlainTemplate(p) && TokenLength(p) == 0
    ensures !IsMeta(p[0])
  {
    assert Tokens(p)[0] == Lit(p[0]);
  }

  // What a compiled template matches

  predicate Accepts(ts: seq<Token>, s: string) {
    Matches(Compile(ts), s)
  }

  predicate SlashFree(s: string) {
    forall i :: 0 <= i < |s| ==> s[i] != '/'
  }

  predicate TokenMatches(t: Token, s: string) {
    match t
    case Lit(c) => s == [c]
    case Wild => s != "" && SlashFree(s)
  }

  lemma ClassMatches(s: string)
    ensures Matches(Group(Cat(NotSlash, Empty)), s) <==> |s| == 1 && s[0] != '/'
  {
    if |s| == 1 && s[0] != '/' {
      assert s[..1] == s && s[1..] == "";
      assert Matches(NotSlash, s[..1]) && Matches(Empty, s[1..]);
    }
    if Matches(Group(Cat(NotSlash, Empty)), s) {
      assert Matches(Cat(NotSlash, Empty), s);
      var k :| 0 <= k <= |s| && Matches(NotSlash, s[..k]) && Matches(Empty, s[k..]);
      assert s[..k][0] == s[0];
    }
  }

  lemma {:induction false} RepeatMatches(s: string)
    ensures Matches(Plus(Group(Cat(NotSlash, Empty))), s) <==> s != "" && SlashFree(s)
    decreases |s|
  {
    var g := Group(Cat(NotSlash, Empty));
    ClassMatches(s);
    if Matches(Plus(g), s) && !Matches(g, s) {
      var k :| 0 < k < |s| && Matches(g, s[..k]) && Matches(Plus(g), s[k..]);
      ClassMatches(s[..k]);
      RepeatMatches(s[k..]);
      SlashFreeJoin(s, k);
    }
    if |s| > 1 && SlashFree(s) {
      ClassMatches(s[..1]);
      RepeatMatches(s[1..]);
    }
  }

  lemma SlashFreeJoin(s: string, k: nat)
    requires k <= |s|
    ensures SlashFree(s) <==> SlashFree(s[..k]) && SlashFree(s[k..])
  {
    if SlashFree(s[..k]) && SlashFree(s[k..]) {
      forall i | 0 <= i < |s| ensures s[i] != '/' {
        assert s[i] == if i < k then s[..k][i] else s[k..][i - k];
      }
    }
  }

  lemma WildMatches(s: string)
    ensures Matches(WILD, s) <==> s != "" && SlashFree(s)
  {
    var plus := Plus(Group(Cat(NotSlash, Empty)));
    hide *;
    RepeatMatches(s);
    GroupMatches(Cat(plus, Empty), s);
    CatEmpty(plus, s);
    assert WILD == Group(Cat(plus, Empty)) by {
      WildIs();
    }
  }

  lemma WildIs()
    ensures WILD == Group(Cat(Plus(Group(Cat(NotSlash, Empty))), Empty))
  {
  }

  lemma GroupMatches(r: Regex, s: string)
    ensures Matches(Group(r), s) == Matches(r, s)
  {
  }

  lemma CatEmpty(r: Regex, s: string)
    ensures Matches(Cat(r, Empty), s) == Matches(r, s)
  {
    if Matches(r, s) {
      assert s[..|s|] == s && s[|s|..] == "";
      assert Matches(r, s[..|s|]) && Matches(Empty, s[|s|..]);
    }
    if Matches(Cat(r, Empty), s) {
      var k :| 0 <= k <= |s| && Matches(r, s[..k]) && Matches(Empty, s[k..]);
      assert s[..k] == s;
    }
  }

  lemma AcceptsStep(ts: seq<Token>, s: string)
    requires ts != []
    ensures Accepts(ts, s) <==> exists k :: 0 <= k <= |s| && TokenMatches(ts[0], s[..k]) && Accepts(ts[1..], s[k..])
  {
    var head := if ts[0].Wild? then WILD else Chr(ts[0].c);
    forall k | 0 <= k <= |s| ensures Matches(head, s[..k]) == TokenMatches(ts[0], s[..k]) {
      WildMatches(s[..k]);
    }
    assert Compile(ts) == Cat(head, Compile(ts[1..]));
    hide WILD;
  }

  lemma AcceptsCons(t: Token, ts: seq<Token>, s: string, k: nat)
    requires k <= |s| && TokenMatches(t, s[..k]) && Accepts(ts, s[k..])
    ensures Accepts([t] + ts, s)
  {
    hide Accepts, TokenMatches;
    assert ([t] + ts)[1..] == ts;
    AcceptsStep([t] + ts, s);
  }

  lemma NothingAccepts(s: string)
    ensures Accepts([], s) <==> s == ""
  {
  }

  lemma {:induction false} AcceptsJoin(a: seq<Token>, b: seq<Token>, s: string, k: nat)
    requires k <= |s| && Accepts(a, s[..k]) && Accepts(b, s[k..])
    ensures Accepts(a + b, s)
    decreases |a|
  {
    hide TokenMatches, Accepts;
    if a == [] {
      NothingAccepts(s[..k]);
      assert a + b == b && s[k..] == s;
    } else {
      AcceptsStep(a, s[..k]);
      var j :| 0 <= j <= k && TokenMatches(a[0], s[..k][..j]) && Accepts(a[1..], s[..k][j..]);
      assert s[..k][..j] == s[..j] && s[..k][j..] == s[j..][..k - j] && s[k..] == s[j..][k - j..];
      AcceptsJoin(a[1..], b, s[j..], k - j);
      assert a + b == [a[0]] + (a[1..] + b);
      AcceptsCons(a[0], a[1..] + b, s, j);
    }
  }

  lemma {:induction false} AcceptsSplit(a: seq<Token>, b: seq<Token>, s: string) returns (k: nat)
    requires Accepts(a + b, s)
    ensures k <= |s| && Accepts(a, s[..k]) && Accepts(b, s[k..])
    decreases |a|
  {
    hide TokenMatches, Accepts;
    if a == [] {
      k := 0;
      NothingAccepts("");
      assert a + b == b && s[0..] == s && s[..0] == "";
    } else {
      assert (a + b)[1..] == a[1..] + b;
      AcceptsStep(a + b, s);
      var j :| 0 <= j <= |s| && TokenMatches(a[0], s[..j]) && Accepts(a[1..] + b, s[j..]);
      var i := AcceptsSplit(a[1..], b, s[j..]);
      k := j + i;
      assert s[j..][..i] == s[..k][j..] && s[j..][i..] == s[k..] && s[..j] == s[..k][..j];
      assert a == [a[0]] + a[1..];
      AcceptsCons(a[0], a[1..], s[..k], j);
    }
  }

  function Lits(u: string): seq<Token> {
    seq(|u|, i requires 0 <= i < |u| => Lit(u[i]))
  }

  lemma {:induction false} LitsAccept(u: string, s: string)
    ensures Accepts(Lits(u), s) <==> s == u
    decreases |u|
  {
    if u == "" {
      assert Lits(u) == [];
    } else {
      assert Lits(u)[1..] == Lits(u[1..]) && u == [u[0]] + u[1..];
      AcceptsStep(Lits(u), s);
      if Accepts(Lits(u), s) {
        var k :| 0 <= k <= |s| && TokenMatches(Lits(u)[0], s[..k]) && Accepts(Lits(u)[1..], s[k..]);
        LitsAccept(u[1..], s[k..]);
        assert s == s[..k] + s[k..];
      }
      if s == u {
        LitsAccept(u[1..], s[1..]);
        assert s[..1] == [u[0]];
      }
    }
  }

  lemma WildAccepts(s: string)
    ensures Accepts([Wild], s) <==> s != "" && SlashFree(s)
  {
    hide WILD;
    AcceptsStep([Wild], s);
    assert [Wild][1..] == [];
    if Accepts([Wild], s) {
      var k :| 0 <= k <= |s| && TokenMatches(Wild, s[..k]) && Accepts([], s[k..]);
      assert s[..k] == s;
    }
    if s != "" && SlashFree(s) {
      assert s[..|s|] == s && s[|s|..] == "";
    }
  }

  /** Tokens without a slash accept no slash. */
  lemma {:induction false} SlashFreeTokens(ts: seq<Token>, s: string)
    requires Accepts(ts, s) && forall i :: 0 <= i < |ts| ==> ts[i] != Lit('/')
    ensures SlashFree(s)
    decreases |ts|
  {
    if ts != [] {
      AcceptsStep(ts, s);
      hide Accepts;
      var k :| 0 <= k <= |s| && TokenMatches(ts[0], s[..k]) && Accepts(ts[1..], s[k..]);
      SlashFreeTokens(ts[1..], s[k..]);
      SlashFreeJoin(s, k);
    }
  }

  // Segments

  /** The pieces of a path or a template between its slashes. */
  function Segments(p: string): (r: seq<string>)
    ensures |r| >= 1
    decreases |p|
  {
    var n := SegmentLength(p);
    if n == |p| then [p] else [p[..n]] + Segments(p[n + 1..])
  }

  /** The position of the first opening brace, or the length. */
  function FirstOpen(g: string): (i: nat)
    ensures i <= |g| && (i < |g| ==> g[i] == '{')
    ensures forall j :: 0 <= j < i ==> g[j] != '{'
  {
    if g == "" || g[0] == '{' then 0 else 1 + FirstOpen(g[1..])
  }

  /** The position after the last closing brace; 0 when there is none. */
  function AfterLastClose(g: string): (n: nat)
    ensures n <= |g| && (n > 0 ==> g[n - 1] == '}')
    ensures forall j :: n <= j < |g| ==> g[j] != '}'
    decreases |g|
  {
    if g == "" then 0 else if g[|g| - 1] == '}' then |g| else AfterLastClose(g[..|g| - 1])
  }

  /** A segment has a variable when its first `{` and last `}` have text between them. */
  predicate HasVariable(g: string) {
    FirstOpen(g) + 2 < AfterLastClose(g)
  }

  /** A template segment and a path segment: the same text, or text in place of the variable. */
  predicate SegmentAccepts(g: string, x: string) {
    if HasVariable(g) then
      var prefix, suffix := g[..FirstOpen(g)], g[AfterLastClose(g)..];
      |x| > |prefix| + |suffix| && x[..|prefix|] == prefix && x[|x| - |suffix|..] == suffix
    else x == g
  }

  predicate TemplateAccepts(p: string, path: string) {
    |Segments(p)| == |Segments(path)|
    && forall i :: 0 <= i < |Segments(p)| ==> SegmentAccepts(Segments(p)[i], Segments(path)[i])
  }

  lemma {:induction false} SegmentLengthOf(g: string, rest: string)
    requires SlashFree(g) && (rest == "" || rest[0] == '/')
    ensures SegmentLength(g + rest) == |g|
    decreases |g|
  {
    if g == "" {
      assert g + rest == rest;
    } else {
      assert (g + rest)[1..] == g[1..] + rest;
      SegmentLengthOf(g[1..], rest);
    }
  }

  lemma LastBraceOf(g: string, rest: string, n: nat)
    requires n <= |g|
    ensures LastBrace(g + rest, n) == LastBrace(g, n)
    decreases n
  {
    if n > 2 {
      LastBraceOf(g, rest, n - 1);
      assert (g + rest)[n - 1] == g[n - 1];
    }
  }

  lemma TokenLengthOf(g: string, rest: string)
    requires g != "" && SlashFree(g) && (rest == "" || rest[0] == '/')
    ensures TokenLength(g + rest) == TokenLength(g)
  {
    hide SegmentLength;
    SegmentLengthOf(g, rest);
    SegmentLengthOf(g, "");
    assert g + "" == g;
    LastBraceOf(g, rest, |g|);
  }

  /** A template's tokens are those of its first segment, then a slash, then those of the rest. */
  lemma {:induction false} TokensOfSegments(g: string, rest: string)
    requires SlashFree(g) && (rest == "" || rest[0] == '/')
    ensures Tokens(g + rest) == Tokens(g) + Tokens(rest)
    decreases |g|
  {
    hide Tokens, TokenLength, SlashFree;
    var p := g + rest;
    if g == "" {
      assert p == rest;
      NoTokens();
    } else {
      TokenLengthOf(g, rest);
      var n := if TokenLength(g) > 0 then TokenLength(g) else 1;
      assert p[n..] == g[n..] + rest;
      SlashFreeJoin(g, n);
      TokensOfSegments(g[n..], rest);
      TokensStep(g);
      TokensStep(p);
      assert [HeadToken(g)] + (Tokens(g[n..]) + Tokens(rest)) == [HeadToken(g)] + Tokens(g[n..]) + Tokens(rest);
    }
  }

  lemma NoTokens()
    ensures Tokens("") == []
  {
  }

  function HeadToken(p: string): Token
    requires p != ""
  {
    if TokenLength(p) > 0 then Wild else Lit(p[0])
  }

  lemma TokensStep(p: string)
    requires p != ""
    ensures Tokens(p) == [HeadToken(p)] + Tokens(p[if TokenLength(p) > 0 then TokenLength(p) else 1..])
  {
    hide TokenLength;
  }

  lemma SlashIsLiteral(rest: string)
    requires rest != "" && rest[0] == '/'
    ensures Tokens(rest) == [Lit('/')] + Tokens(rest[1..])
  {
  }

  /** Text in which no variable starts is literal. */
  lemma {:induction false} NoVariableTokens(u: string)
    requires forall i :: 0 <= i < |u| ==> TokenLength(u[i..]) == 0
    ensures Tokens(u) == Lits(u)
    decreases |u|
  {
    hide TokenLength;
    if u != "" {
      assert u[0..] == u;
      assert forall i :: 0 <= i < |u[1..]| ==> u[1..][i..] == u[i + 1..];
      NoVariableTokens(u[1..]);
      assert Lits(u) == [Lit(u[0])] + Lits(u[1..]);
    }
  }

  lemma NoTokenAt(g: string, i: nat)
    requires SlashFree(g) && i < |g| && !(g[i] == '{' && i + 2 < AfterLastClose(g))
    ensures TokenLength(g[i..]) == 0
  {
    hide SegmentLength;
    if g[i] == '{' {
      var u := g[i..];
      SlashFreeJoin(g, i);
      SegmentLengthOf(u, "");
      assert u + "" == u;
      NoBraceFrom(g, i);
    }
  }

  lemma NoBraceFrom(g: string, i: nat)
    requires i < |g| && i + 2 >= AfterLastClose(g)
    ensures LastBrace(g[i..], |g| - i) == 0
  {
    var u := g[i..];
    assert forall j :: 2 <= j < |u| ==> u[j] != '}';
  }

  lemma VariableToken(g: string)
    requires SlashFree(g) && HasVariable(g)
    ensures TokenLength(g[FirstOpen(g)..]) == AfterLastClose(g) - FirstOpen(g)
  {
    hide SegmentLength, FirstOpen, AfterLastClose, LastBrace;
    var i := FirstOpen(g);
    var u := g[i..];
    SlashFreeJoin(g, i);
    SegmentLengthOf(u, "");
    assert u + "" == u;
    LastBraceFrom(g, i);
  }

  lemma LastBraceFrom(g: string, i: nat)
    requires i + 2 < AfterLastClose(g)
    ensures LastBrace(g[i..], |g| - i) == AfterLastClose(g) - 1 - i
  {
    hide AfterLastClose, LastBrace;
    var u, n := g[i..], AfterLastClose(g);
    assert u[n - 1 - i] == '}';
    assert forall j :: n - i <= j < |u| ==> u[j] != '}';
  }

  lemma {:induction false} LiteralPrefix(g: string, k: nat)
    requires k <= FirstOpen(g)
    ensures Tokens(g) == Lits(g[..k]) + Tokens(g[k..])
    decreases k
  {
    hide Tokens;
    if k == 0 {
      assert g[0..] == g && Lits("") == [];
    } else {
      assert g[0] != '{';
      assert k - 1 <= FirstOpen(g[1..]);
      hide FirstOpen;
      LiteralPrefix(g[1..], k - 1);
      TokensStep(g);
      assert Lits(g[..k]) == [Lit(g[0])] + Lits(g[1..][..k - 1]);
      assert g[1..][k - 1..] == g[k..];
    }
  }

  /** The tokens of a segment: its text, or the text before its variable, the wildcard and the text after it. */
  lemma TokensOfSegment(g: string)
    requires SlashFree(g)
    ensures Tokens(g) ==
      if HasVariable(g) then Lits(g[..FirstOpen(g)]) + ([Wild] + Lits(g[AfterLastClose(g)..])) else Lits(g)
  {
    hide TokenLength, Tokens, FirstOpen, AfterLastClose, Lits, SlashFree;
    if HasVariable(g) {
      var i, n := FirstOpen(g), AfterLastClose(g);
      LiteralPrefix(g, i);
      VariableToken(g);
      TokensStep(g[i..]);
      assert g[i..][n - i..] == g[n..];
      SuffixIsLiteral(g, n);
    } else {
      forall i | 0 <= i < |g| ensures TokenLength(g[i..]) == 0 {
        assert g[i] == '{' ==> i >= FirstOpen(g);
        NoTokenAt(g, i);
      }
      NoVariableTokens(g);
    }
  }

  lemma SuffixIsLiteral(g: string, n: nat)
    requires SlashFree(g) && n == AfterLastClose(g)
    ensures Tokens(g[n..]) == Lits(g[n..])
  {
    hide TokenLength;
    var u := g[n..];
    forall i | 0 <= i < |u| ensures TokenLength(u[i..]) == 0 {
      assert u[i..] == g[n + i..];
      NoTokenAt(g, n + i);
    }
    NoVariableTokens(u);
  }

  lemma SlashFreeSegmentTokens(g: string)
    requires SlashFree(g)
    ensures forall i :: 0 <= i < |Tokens(g)| ==> Tokens(g)[i] != Lit('/')
  {
    hide Tokens;
    TokensOfSegment(g);
  }

  lemma VariableAccepts(prefix: string, suffix: string, x: string)
    requires SlashFree(x)
    ensures Accepts(Lits(prefix) + ([Wild] + Lits(suffix)), x) <==>
      |x| > |prefix| + |suffix| && x[..|prefix|] == prefix && x[|x| - |suffix|..] == suffix
  {
    hide Accepts, Lits;
    if Accepts(Lits(prefix) + ([Wild] + Lits(suffix)), x) {
      var k := AcceptsSplit(Lits(prefix), [Wild] + Lits(suffix), x);
      LitsAccept(prefix, x[..k]);
      var j := AcceptsSplit([Wild], Lits(suffix), x[k..]);
      WildAccepts(x[k..][..j]);
      LitsAccept(suffix, x[k..][j..]);
      assert x[k..][j..] == x[k + j..];
    }
    if |x| > |prefix| + |suffix| && x[..|prefix|] == prefix && x[|x| - |suffix|..] == suffix {
      var rest, n := x[|prefix|..], |x| - |prefix| - |suffix|;
      assert rest[n..] == x[|x| - |suffix|..];
      SlashFreeJoin(x, |prefix|);
      SlashFreeJoin(rest, n);
      WildAccepts(rest[..n]);
      LitsAccept(suffix, rest[n..]);
      AcceptsJoin([Wild], Lits(suffix), rest, n);
      LitsAccept(prefix, x[..|prefix|]);
      AcceptsJoin(Lits(prefix), [Wild] + Lits(suffix), x, |prefix|);
    }
  }

  lemma SegmentMeaning(g: string, x: string)
    requires SlashFree(g) && SlashFree(x)
    ensures Accepts(Tokens(g), x) <==> SegmentAccepts(g, x)
  {
    hide Accepts, Lits, Tokens;
    TokensOfSegment(g);
    if HasVariable(g) {
      VariableAccepts(g[..FirstOpen(g)], g[AfterLastClose(g)..], x);
    } else {
      LitsAccept(g, x);
    }
  }

  lemma SlashAccepts(ts: seq<Token>, s: string)
    ensures Accepts([Lit('/')] + ts, s) <==> s != "" && s[0] == '/' && Accepts(ts, s[1..])
  {
    var all := [Lit('/')] + ts;
    assert all[1..] == ts;
    AcceptsStep(all, s);
    hide Accepts;
    if Accepts(all, s) {
      var k :| 0 <= k <= |s| && TokenMatches(all[0], s[..k]) && Accepts(all[1..], s[k..]);
      assert s[..k][0] == s[0];
    }
    if s != "" && s[0] == '/' && Accepts(ts, s[1..]) {
      assert s[..1] == "/";
      assert TokenMatches(all[0], s[..1]);
    }
  }

  /** A template of more than one segment: the first segments meet, and so do the rests. */
  lemma FirstSegmentMeaning(g: string, rest: string, s: string)
    requires SlashFree(g) && rest != "" && rest[0] == '/'
    ensures Accepts(Tokens(g + rest), s) <==>
      var n := SegmentLength(s);
      n < |s| && SegmentAccepts(g, s[..n]) && Accepts(Tokens(rest[1..]), s[n + 1..])
  {
    hide Accepts, Tokens, SegmentAccepts, SegmentLength;
    var n := SegmentLength(s);
    TokensOfSegments(g, rest);
    SlashIsLiteral(rest);
    var tail := [Lit('/')] + Tokens(rest[1..]);
    if Accepts(Tokens(g) + tail, s) {
      var k := AcceptsSplit(Tokens(g), tail, s);
      SlashFreeSegmentTokens(g);
      SlashFreeTokens(Tokens(g), s[..k]);
      SlashAccepts(Tokens(rest[1..]), s[k..]);
      SegmentLengthOf(s[..k], s[k..]);
      assert s[..k] + s[k..] == s;
      SegmentMeaning(g, s[..n]);
      assert s[k..][1..] == s[n + 1..];
    }
    if n < |s| && SegmentAccepts(g, s[..n]) && Accepts(Tokens(rest[1..]), s[n + 1..]) {
      SegmentMeaning(g, s[..n]);
      assert s[n..][1..] == s[n + 1..];
      SlashAccepts(Tokens(rest[1..]), s[n..]);
      AcceptsJoin(Tokens(g), tail, s, n);
    }
  }

  lemma TailAccepts(p: string, s: string)
    requires SegmentLength(p) < |p| && SegmentLength(s) < |s|
    ensures TemplateAccepts(p, s) <==>
      var n, m := SegmentLength(p), SegmentLength(s);
      SegmentAccepts(p[..n], s[..m]) && TemplateAccepts(p[n + 1..], s[m + 1..])
  {
    hide SegmentAccepts, SegmentLength;
    var n, m := SegmentLength(p), SegmentLength(s);
    var ps, ss := Segments(p), Segments(s);
    assert ps == [p[..n]] + Segments(p[n + 1..]) && ss == [s[..m]] + Segments(s[m + 1..]);
    if TemplateAccepts(p, s) {
      forall i | 0 <= i < |ps| - 1 ensures SegmentAccepts(ps[1..][i], ss[1..][i]) {
        assert SegmentAccepts(ps[i + 1], ss[i + 1]);
      }
      assert SegmentAccepts(ps[0], ss[0]);
    }
    if SegmentAccepts(p[..n], s[..m]) && TemplateAccepts(p[n + 1..], s[m + 1..]) {
      forall i | 0 <= i < |ps| ensures SegmentAccepts(ps[i], ss[i]) {
        if i > 0 {
          assert ps[i] == Segments(p[n + 1..])[i - 1] && ss[i] == Segments(s[m + 1..])[i - 1];
        }
      }
    }
  }

  lemma {:induction false} TokensMeanSegments(p: string, s: string)
    ensures Accepts(Tokens(p), s) <==> TemplateAccepts(p, s)
    decreases |p|
  {
    hide Accepts, Tokens, SegmentAccepts, SegmentLength;
    var n, m := SegmentLength(p), SegmentLength(s);
    if n < |p| {
      assert p[..n] + p[n..] == p && p[n..][1..] == p[n + 1..];
      FirstSegmentMeaning(p[..n], p[n..], s);
      if m < |s| {
        TokensMeanSegments(p[n + 1..], s[m + 1..]);
        TailAccepts(p, s);
      } else {
        assert |Segments(p)| == 1 + |Segments(p[n + 1..])|;
      }
    } else if m < |s| {
      assert |Segments(s)| == 1 + |Segments(s[m + 1..])|;
      OneSegmentOnly(p, s);
    } else {
      WholeIsSlashFree(p);
      WholeIsSlashFree(s);
      SegmentMeaning(p, s);
      SingleSegments(p, s);
    }
  }

  lemma SingleSegments(p: string, s: string)
    requires SegmentLength(p) == |p| && SegmentLength(s) == |s|
    ensures TemplateAccepts(p, s) <==> SegmentAccepts(p, s)
  {
    hide SegmentAccepts, SegmentLength;
    var ps, ss := Segments(p), Segments(s);
    assert ps == [p] && ss == [s];
    assert SegmentAccepts(ps[0], ss[0]) == SegmentAccepts(p, s);
  }

  lemma WholeIsSlashFree(p: string)
    requires SegmentLength(p) == |p|
    ensures SlashFree(p)
  {
  }

  lemma OneSegmentOnly(p: string, s: string)
    requires SegmentLength(p) == |p| && SegmentLength(s) < |s|
    ensures !Accepts(Tokens(p), s)
  {
    hide Accepts, Tokens;
    SlashFreeSegmentTokens(p);
    if Accepts(Tokens(p), s) {
      SlashFreeTokens(Tokens(p), s);
    }
  }

  /**
   Rewriting a plain template preserves its meaning: a path matches the generated expression exactly when it has
   as many segments, each equal to the template's or with text in place of its variable.
   */
  lemma ExpressionMeansTemplate(p: string, path: string)
    requires PlainTemplate(p)
    ensures PathMatches(GeneratePathExpression(p), path) <==> TemplateAccepts(p, path)
  {
    hide PlainTemplate, TemplateAccepts, Tokens, Read, Compile, GeneratePathExpression;
    ExpressionReadsAsCompiled(p);
    TokensMeanSegments(p, path);
  }
}
