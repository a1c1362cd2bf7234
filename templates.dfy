/**
  What rendering a line means: a line built from literal text and `{name}` holes
  renders to the text with each hole replaced by its name's value, and fails when a
  hole's name has no string value.
 */
module Templates {
  import opened Wrappers
  import opened Records
  import Json
  import Text
  import opened Placeholders

  /** A piece of a template line: literal text, or a hole written `{name}`. */
  datatype Piece = Lit(text: string) | Hole(name: string)

  /** The token that stands for a hole. */
  function Token(name: string): string
  {
    Prefix + name + Suffix
  }

  /** A placeholder name: one or more ASCII letters. */
  predicate IsName(name: string)
  {
    name != [] && forall c <- name :: IsLetter(c)
  }

  /** The template line the pieces spell. */
  function Assemble(ps: seq<Piece>): string
  {
    if ps == [] then ""
    else
      (match ps[0] case Lit(t) => t case Hole(k) => Token(k)) + Assemble(ps[1..])
  }

  /**
    No placeholder starts in literal text, though it may hold braces that do not form one
    (`{}`, `{1}`, `{a b}`), and every hole has a placeholder name.
   */
  predicate WellFormed(ps: seq<Piece>)
  {
    forall p <- ps :: if p.Lit? then Inert(p.text) else IsName(p.name)
  }

  /**
    Every hole's name has a string value in the record, and no placeholder starts in that
    value; a value that spells a token is the case `InsertedTokenReplacedAgain` shows.
   */
  predicate Resolves(ps: seq<Piece>, record: Json.Value)
  {
    forall p <- ps :: p.Hole? ==> Lookup(record, p.name).Ok? && Inert(Lookup(record, p.name).value)
  }

  /** The intended text: every hole replaced by its name's value. */
  function Fill(ps: seq<Piece>, record: Json.Value): string
    requires Resolves(ps, record)
  {
    if ps == [] then ""
    else
      (match ps[0] case Lit(t) => t case Hole(k) => Lookup(record, k).value) + Fill(ps[1..], record)
  }

  /** The names of the holes, in order. */
  function HoleNames(ps: seq<Piece>): seq<string>
  {
    if ps == [] then []
    else if ps[0].Hole? then [ps[0].name] + HoleNames(ps[1..])
    else HoleNames(ps[1..])
  }

  /** The tokens for a list of names. */
  function TokensOf(names: seq<string>): (r: seq<string>)
    ensures |r| == |names|
    ensures forall i :: 0 <= i < |names| ==> r[i] == Token(names[i])
  {
    if names == [] then [] else [Token(names[0])] + TokensOf(names[1..])
  }

  /** Every hole named `name` turned into the literal `value`. */
  function FillName(ps: seq<Piece>, name: string, value: string): seq<Piece>
  {
    if ps == [] then []
    else [if ps[0] == Hole(name) then Lit(value) else ps[0]] + FillName(ps[1..], name, value)
  }

  // ---------------------------------------------------------------------------
  // The tokens of an assembled line
  // ---------------------------------------------------------------------------

  lemma NameToken(name: string)
    requires IsName(name)
    ensures IsPlaceholder(Token(name)) && Braced(Token(name)) && Key(Token(name)) == name
  {
    var t := Token(name);
    assert forall k :: 1 <= k < |t| - 1 ==> t[k] == name[k - 1];
    StripWrapped(name);
  }

  /** Text in which no placeholder starts yields no tokens and does not disturb the tokens after it. */
  lemma {:induction false} TokensSkip(x: string, y: string)
    requires Inert(x)
    ensures Tokens(x + y) == Tokens(y)
  {
    if x != [] {
      var s := x + y;
      InertNoMatch(x, y);
      InertTail(x);
      assert s[1..] == x[1..] + y;
      TokensSkip(x[1..], y);
    } else {
      assert x + y == y;
    }
  }

  /** A hole's token at the start of a line is its first token. */
  lemma TokensAfterToken(name: string, y: string)
    requires IsName(name)
    ensures Tokens(Token(name) + y) == [Token(name)] + Tokens(y)
  {
    var t, s := Token(name), Token(name) + y;
    NameToken(name);
    assert s[..|t|] == t && s[|t|..] == y;
    MatchLengthComplete(s, |t|);
  }

  /** The tokens of an assembled line are its holes' tokens, in order. */
  lemma {:induction false} TokensOfTemplate(ps: seq<Piece>)
    requires WellFormed(ps)
    ensures Tokens(Assemble(ps)) == TokensOf(HoleNames(ps))
  {
    if ps == [] {
      assert Assemble(ps) == [];
    } else {
      assert ps[0] in ps;
      assert WellFormed(ps[1..]) by { assert forall p <- ps[1..] :: p in ps; }
      TokensOfTemplate(ps[1..]);
      match ps[0]
      case Lit(t) =>
        TokensSkip(t, Assemble(ps[1..]));
      case Hole(k) =>
        TokensAfterToken(k, Assemble(ps[1..]));
    }
  }

  // ---------------------------------------------------------------------------
  // Replacing one hole's token
  // ---------------------------------------------------------------------------

  /** Replacing one name's token leaves another name's token alone. */
  lemma OtherTokenKept(name: string, other: string, y: string, value: string)
    requires IsName(name) && IsName(other) && name != other
    ensures Text.ReplaceAll(Token(other) + y, Token(name), value) == Token(other) + Text.ReplaceAll(y, Token(name), value)
  {
    var t, s := Token(name), Token(other) + y;
    if |s| >= |t| {
      TokenMismatch(name, other, y);
    }
    Text.ReplaceAllNoHead(s, t, value);
    assert s[1..] == other + Suffix + y;
    assert '{' !in other + Suffix;
    Text.ReplaceAllSkips(other + Suffix, y, t, value);
  }

  /** Two different names' tokens disagree somewhere within the first one's length. */
  lemma TokenMismatch(name: string, other: string, y: string)
    requires IsName(name) && IsName(other) && name != other
    requires |Token(other) + y| >= |Token(name)|
    ensures (Token(other) + y)[..|Token(name)|] != Token(name)
  {
    var t, s := Token(name), Token(other) + y;
    if |name| < |other| {
      assert s[|name| + 1] == other[|name|] && IsLetter(other[|name|]);
      assert t[|name| + 1] == '}';
      assert s[..|t|][|name| + 1] != t[|name| + 1];
    } else if |name| > |other| {
      assert s[|other| + 1] == '}';
      assert t[|other| + 1] == name[|other|] && IsLetter(name[|other|]);
      assert s[..|t|][|other| + 1] != t[|other| + 1];
    } else {
      var i :| 0 <= i < |name| && name[i] != other[i];
      assert s[..|t|][i + 1] != t[i + 1];
    }
  }

  /** No hole's token occurs starting inside inert text, whatever follows it. */
  lemma InertNoToken(x: string, y: string, name: string, i: int)
    requires Inert(x) && IsName(name) && 0 <= i < |x|
    ensures !Text.OccursAt(Token(name), x + y, i)
  {
    var s, t := x + y, Token(name);
    if i + |t| <= |s| {
      var w := s[i..i + |t|];
      if x[i] != '{' {
        assert w[0] != t[0];
      } else {
        assert BraceStaysOpen(x, i);
        var n, m := LetterRun(x[i + 1..]), |name|;
        assert t[m + 1] == '}';
        if n < m {
          assert w[n + 1] == s[i + 1 + n] == x[i + 1 + n] == x[i + 1..][n];
          assert t[n + 1] == name[n] && name[n] in name;
          assert w[n + 1] != t[n + 1];
        } else if n > m {
          assert w[m + 1] == s[i + 1 + m] == x[i + 1 + m] == x[i + 1..][m];
          assert w[m + 1] != t[m + 1];
        } else {
          assert w[m + 1] == s[i + 1 + n] == x[i + 1 + n];
          assert w[m + 1] != t[m + 1];
        }
      }
    }
  }

  /** Replacing a hole's token in an assembled line fills exactly the holes with that name. */
  lemma {:induction false} ReplaceInTemplate(ps: seq<Piece>, name: string, value: string)
    requires WellFormed(ps) && IsName(name)
    ensures Text.ReplaceAll(Assemble(ps), Token(name), value) == Assemble(FillName(ps, name, value))
  {
    var t := Token(name);
    if ps == [] {
      assert Assemble(ps) == [];
    } else {
      assert ps[0] in ps;
      assert WellFormed(ps[1..]) by { assert forall p <- ps[1..] :: p in ps; }
      ReplaceInTemplate(ps[1..], name, value);
      var rest := Assemble(ps[1..]);
      match ps[0]
      case Lit(x) =>
        forall i | 0 <= i < |x|
          ensures !Text.OccursAt(t, x + rest, i)
        {
          InertNoToken(x, rest, name, i);
        }
        Text.ReplaceAllPasses(x, rest, t, value);
      case Hole(k) =>
        if k == name {
          Text.ReplaceAllHead(rest, t, value);
        } else {
          OtherTokenKept(name, k, rest, value);
        }
    }
  }

  // ---------------------------------------------------------------------------
  // The substitution theorem
  // ---------------------------------------------------------------------------

  lemma {:induction false} FillNameKeepsShape(ps: seq<Piece>, name: string, value: string, record: Json.Value)
    requires WellFormed(ps) && Resolves(ps, record) && Inert(value)
    requires Lookup(record, name) == Ok(value)
    ensures WellFormed(FillName(ps, name, value)) && Resolves(FillName(ps, name, value), record)
    ensures Fill(FillName(ps, name, value), record) == Fill(ps, record)
  {
    if ps != [] {
      assert ps[0] in ps;
      assert WellFormed(ps[1..]) && Resolves(ps[1..], record) by {
        assert forall p <- ps[1..] :: p in ps;
      }
      FillNameKeepsShape(ps[1..], name, value, record);
      var f := FillName(ps, name, value);
      assert f[1..] == FillName(ps[1..], name, value);
      assert forall p <- f :: p == f[0] || p in f[1..];
    }
  }

  /** Filling one name leaves only the holes of other names, all of them holes of the line. */
  lemma {:induction false} FillNameRemovesName(ps: seq<Piece>, name: string, value: string)
    ensures forall k <- HoleNames(FillName(ps, name, value)) :: k != name && k in HoleNames(ps)
  {
    if ps != [] {
      FillNameRemovesName(ps[1..], name, value);
      var f := FillName(ps, name, value);
      assert f[1..] == FillName(ps[1..], name, value);
    }
  }

  lemma NothingOutsideEmpty(xs: seq<string>, names: seq<string>)
    requires forall k <- xs :: k in names
    ensures names == [] ==> xs == []
  {
    if xs != [] {
      assert xs[0] in names;
    }
  }

  lemma {:induction false} NoHolesFill(ps: seq<Piece>, record: Json.Value)
    requires HoleNames(ps) == []
    ensures Resolves(ps, record) && Fill(ps, record) == Assemble(ps)
  {
    if ps != [] {
      NoHolesFill(ps[1..], record);
      assert forall p <- ps :: p == ps[0] || p in ps[1..];
    }
  }

  /**
    The fold over the tokens of a list of names turns an assembled line into its filled
    text, provided every hole's name is in the list and every name resolves.
   */
  lemma {:induction false} SubstituteTemplate(ps: seq<Piece>, names: seq<string>, record: Json.Value)
    requires WellFormed(ps) && Resolves(ps, record)
    requires forall k <- names :: IsName(k) && Lookup(record, k).Ok? && Inert(Lookup(record, k).value)
    requires forall k <- HoleNames(ps) :: k in names
    ensures forall t <- TokensOf(names) :: Braced(t)
    ensures Substitute(Assemble(ps), TokensOf(names), record) == Ok(Fill(ps, record))
    decreases |names|
  {
    forall t <- TokensOf(names) ensures Braced(t) {
      var i :| 0 <= i < |names| && TokensOf(names)[i] == t;
      assert names[i] in names;
      NameToken(names[i]);
    }
    if names == [] {
      NothingOutsideEmpty(HoleNames(ps), names);
      NoHolesFill(ps, record);
    } else {
      var k := names[0];
      assert k in names;
      var value := Lookup(record, k).value;
      NameToken(k);
      var more := names[1..];
      assert TokensOf(names) == [Token(k)] + TokensOf(more);
      SubstituteCons(Assemble(ps), Token(k), TokensOf(more), record);
      ReplaceInTemplate(ps, k, value);
      var filled := FillName(ps, k, value);
      FillNameKeepsShape(ps, k, value, record);
      FillNameRemovesName(ps, k, value);
      assert forall j <- more :: j in names;
      assert forall j <- HoleNames(filled) :: j in more by {
        forall j <- HoleNames(filled) ensures j in more {
          assert j in names && j != k;
        }
      }
      SubstituteTemplate(filled, more, record);
    }
  }

  lemma {:induction false} HoleNamesResolve(ps: seq<Piece>, record: Json.Value)
    requires WellFormed(ps) && Resolves(ps, record)
    ensures forall k <- HoleNames(ps) :: IsName(k) && Lookup(record, k).Ok? && Inert(Lookup(record, k).value)
  {
    if ps != [] {
      assert ps[0] in ps;
      assert WellFormed(ps[1..]) && Resolves(ps[1..], record) by {
        assert forall p <- ps[1..] :: p in ps;
      }
      HoleNamesResolve(ps[1..], record);
    }
  }

  /**
    Substitution is correct: when no placeholder starts in the literal text or in the
    values, rendering the assembled line replaces each hole by its name's value and keeps
    the text around it as it is.
   */
  lemma RenderFillsTemplate(ps: seq<Piece>, record: Json.Value)
    requires WellFormed(ps) && Resolves(ps, record)
    ensures Render(Assemble(ps), record) == Ok(Fill(ps, record))
  {
    TokensOfTemplate(ps);
    HoleNamesResolve(ps, record);
    SubstituteTemplate(ps, HoleNames(ps), record);
  }

  lemma {:induction false} HoleNameListed(ps: seq<Piece>, name: string)
    requires Hole(name) in ps
    ensures name in HoleNames(ps)
  {
    if ps[0] != Hole(name) {
      assert Hole(name) in ps[1..];
      HoleNameListed(ps[1..], name);
    }
  }

  /** A hole whose name has no string value makes the whole line fail. */
  lemma RenderTemplateFails(ps: seq<Piece>, name: string, record: Json.Value)
    requires WellFormed(ps) && Hole(name) in ps
    requires Lookup(record, name).Err?
    ensures Render(Assemble(ps), record).Err?
  {
    TokensOfTemplate(ps);
    HoleNameListed(ps, name);
    var i :| 0 <= i < |HoleNames(ps)| && HoleNames(ps)[i] == name;
    assert IsName(name) by { assert Hole(name) in ps; }
    NameToken(name);
    assert Token(name) in Tokens(Assemble(ps)) by {
      assert TokensOf(HoleNames(ps))[i] == Token(name);
    }
    RenderOkIff(Assemble(ps), record);
  }

  /** A line with one hole between two inert texts renders to the inert value between them. */
  lemma RenderOneHole(before: string, name: string, after: string, record: Json.Value)
    requires Inert(before) && Inert(after) && IsName(name)
    requires Lookup(record, name).Ok? && Inert(Lookup(record, name).value)
    ensures Render(before + Token(name) + after, record) == Ok(before + Lookup(record, name).value + after)
  {
    var ps := OneHolePieces(before, name, after, record);
    RenderFillsTemplate(ps, record);
  }

  /** The pieces of a line with one hole between two texts. */
  lemma OneHolePieces(before: string, name: string, after: string, record: Json.Value) returns (ps: seq<Piece>)
    requires Inert(before) && Inert(after) && IsName(name)
    requires Lookup(record, name).Ok? && Inert(Lookup(record, name).value)
    ensures WellFormed(ps) && Resolves(ps, record)
    ensures Assemble(ps) == before + Token(name) + after
    ensures Fill(ps, record) == before + Lookup(record, name).value + after
  {
    var v := Lookup(record, name).value;
    var last := [Lit(after)];
    ps := [Lit(before), Hole(name)] + last;
    assert ps[1..] == [Hole(name)] + last && ([Hole(name)] + last)[1..] == last && last[1..] == [];
    assert Assemble([]) == "" && Fill([], record) == "" && after + "" == after;
    assert Assemble(last) == after && Fill(last, record) == after;
    assert Assemble(ps) == before + (Token(name) + after);
    assert Fill(ps, record) == before + (v + after);
    assert before + (Token(name) + after) == before + Token(name) + after;
    assert before + (v + after) == before + v + after;
  }

  /**
    Doubled braces around a name, as in `{{name}}`: the inner `{name}` is the placeholder,
    and the outer braces stay around its value, whatever that value is.
   */
  lemma DoubleBraces(name: string, record: Json.Value)
    requires IsName(name) && Lookup(record, name).Ok?
    ensures Render(Prefix + Token(name) + Suffix, record) == Ok(Prefix + Lookup(record, name).value + Suffix)
  {
    var t, v := Token(name), Lookup(record, name).value;
    var s := Prefix + t + Suffix;
    NameToken(name);
    assert s[1..] == t + Suffix;
    assert s[1] == '{';
    assert MatchLength(s) == None;
    TokensAfterToken(name, Suffix);
    assert Tokens(Suffix) == [];
    assert Tokens(s) == [t] + [];
    assert s[..|t|][1] != t[1] by {
      assert t[1] == name[0] && name[0] in name;
    }
    Text.ReplaceAllNoHead(s, t, v);
    Text.ReplaceAllHead(Suffix, t, v);
    assert Text.ReplaceAll(Suffix, t, v) == Suffix;
    assert Text.ReplaceAll(s, t, v) == Prefix + v + Suffix;
    SubstituteCons(s, t, [], record);
    assert Substitute(Prefix + v + Suffix, [], record) == Ok(Prefix + v + Suffix);
  }

  /**
    Braces that do not form a placeholder stay as they are beside one that does:
    `{}` or `{1}` before a hole come back literally while the hole is filled.
   */
  lemma LiteralBracesBesideHole(inner: string, name: string, record: Json.Value)
    requires '{' !in inner && '}' !in inner
    requires inner == [] || exists k :: 0 <= k < |inner| && !IsLetter(inner[k])
    requires IsName(name) && Lookup(record, name).Ok? && Inert(Lookup(record, name).value)
    ensures Render(Prefix + inner + Suffix + " " + Token(name), record)
         == Ok(Prefix + inner + Suffix + " " + Lookup(record, name).value)
  {
    var before := Prefix + inner + Suffix + " ";
    BracedInert(inner);
    BraceFreeInert("");
    RenderOneHole(before, name, "", record);
    assert before + Token(name) + "" == before + Token(name);
    assert before + Lookup(record, name).value + "" == before + Lookup(record, name).value;
  }

  /** `{inner} ` is inert when `inner` holds no brace and is empty or holds a non-letter. */
  lemma BracedInert(inner: string)
    requires '{' !in inner && '}' !in inner
    requires inner == [] || exists k :: 0 <= k < |inner| && !IsLetter(inner[k])
    ensures Inert(Prefix + inner + Suffix + " ")
  {
    var x := Prefix + inner + Suffix + " ";
    forall i | 0 < i < |x|
      ensures x[i] != '{'
    {
      if i <= |inner| {
        assert x[i] == inner[i - 1];
      }
    }
    forall i | 0 <= i < |x| && x[i] == '{'
      ensures BraceStaysOpen(x, i)
    {
      if i == 0 {
        var n := LetterRun(x[1..]);
        if inner == [] {
          assert x[1..][0] == '}';
        } else {
          var k :| 0 <= k < |inner| && !IsLetter(inner[k]);
          assert x[1..][k] == inner[k];
          assert n <= k;
          assert x[1 + n] == inner[n];
        }
      }
    }
  }

  // ---------------------------------------------------------------------------
  // Instances
  // ---------------------------------------------------------------------------

  /** `"dance is {feeling}"` with `feeling` set to `"fun"` renders to `"dance is fun"`. */
  lemma DanceExample()
    ensures Render("dance is {feeling}", Json.Object(map["feeling" := Json.String("fun")])) == Ok("dance is fun")
  {
    var record := Json.Object(map["feeling" := Json.String("fun")]);
    assert Lookup(record, "feeling") == Ok("fun");
    DanceLine();
    BraceFreeInert("dance is ");
    BraceFreeInert("fun");
    BraceFreeInert("");
    RenderOneHole("dance is ", "feeling", "", record);
  }

  /** Facts about the line of the substitution test. */
  lemma DanceLine()
    ensures "dance is {feeling}" == "dance is " + Token("feeling") + ""
    ensures '{' !in "dance is " && '{' !in "fun" && IsName("feeling")
    ensures "dance is " + "fun" + "" == "dance is fun"
  {
  }

  lemma TwoTokens(a: string, b: string)
    requires IsName(a) && IsName(b)
    ensures Tokens(Token(a) + Token(b)) == [Token(a), Token(b)]
  {
    TokensAfterToken(b, "");
    assert Tokens("") == [];
    assert Token(b) + "" == Token(b);
    TokensAfterToken(a, Token(b));
  }

  lemma ReplaceTwice(a: string, b: string, x: string)
    requires IsName(a) && IsName(b) && a != b
    ensures Text.ReplaceAll(Token(a) + Token(b), Token(a), Token(b)) == Token(b) + Token(b)
    ensures Text.ReplaceAll(Token(b) + Token(b), Token(b), x) == x + x
  {
    var ta, tb := Token(a), Token(b);
    NameToken(a);
    NameToken(b);
    Text.ReplaceAllHead(tb, ta, tb);
    OtherTokenKept(a, b, "", tb);
    assert tb + "" == tb;
    assert Text.ReplaceAll("", ta, tb) == "";
    Text.ReplaceAllHead(tb, tb, x);
    Text.ReplaceAllHead("", tb, x);
    assert Text.ReplaceAll("", tb, x) == "";
  }

  lemma SubstituteChain(a: string, b: string, x: string, record: Json.Value)
    requires IsName(a) && IsName(b) && a != b
    requires Lookup(record, a) == Ok(Token(b)) && Lookup(record, b) == Ok(x)
    ensures Braced(Token(a)) && Braced(Token(b))
    ensures Substitute(Token(a) + Token(b), [Token(a), Token(b)], record) == Ok(x + x)
  {
    NameToken(a);
    NameToken(b);
    SubstituteFirst(a, b, x, record);
    SubstituteSecond(b, x, record);
  }

  /** The first step replaces `{a}` by its value `{b}`. */
  lemma SubstituteFirst(a: string, b: string, x: string, record: Json.Value)
    requires IsName(a) && IsName(b) && a != b
    requires Lookup(record, a) == Ok(Token(b))
    ensures Braced(Token(a)) && Braced(Token(b))
    ensures Substitute(Token(a) + Token(b), [Token(a), Token(b)], record) == Substitute(Token(b) + Token(b), [Token(b)], record)
  {
    var ta, tb := Token(a), Token(b);
    NameToken(a);
    NameToken(b);
    ReplaceTwice(a, b, x);
    SubstituteStep(ta + tb, ta, tb, tb, record);
  }

  /** The fold over two tokens, after its first step. */
  lemma SubstituteStep(text: string, t: string, u: string, v: string, record: Json.Value)
    requires Braced(t) && Braced(u) && Lookup(record, Key(t)) == Ok(v)
    ensures Substitute(text, [t, u], record) == Substitute(Text.ReplaceAll(text, t, v), [u], record)
  {
    SubstituteCons(text, t, [u], record);
    PairAsCons(t, u);
  }

  lemma PairAsCons(p: string, q: string)
    ensures [p, q] == [p] + [q] && [q] == [q] + []
  {
  }

  /** The second step replaces both copies of `{b}` by its value. */
  lemma SubstituteSecond(b: string, x: string, record: Json.Value)
    requires IsName(b)
    requires Lookup(record, b) == Ok(x)
    ensures Braced(Token(b))
    ensures Substitute(Token(b) + Token(b), [Token(b)], record) == Ok(x + x)
  {
    var tb := Token(b);
    NameToken(b);
    Text.ReplaceAllHead(tb, tb, x);
    Text.ReplaceAllHead("", tb, x);
    assert tb + "" == tb;
    assert Text.ReplaceAll("", tb, x) == "";
    assert x + (x + "") == x + x;
    SubstituteCons(tb + tb, tb, [], record);
    PairAsCons(tb, tb);
    assert Substitute(x + x, [], record) == Ok(x + x);
  }

  /**
    Tokens are looked up in the original line but replaced in the updated one: when the
    first name's value spells the second name's token, both holes end up with the
    second name's value.
   */
  lemma InsertedTokenReplacedAgain(a: string, b: string, x: string)
    requires IsName(a) && IsName(b) && a != b
    ensures Render(Token(a) + Token(b), Json.Object(map[a := Json.String(Token(b)), b := Json.String(x)])) == Ok(x + x)
  {
    var record := Json.Object(map[a := Json.String(Token(b)), b := Json.String(x)]);
    assert Lookup(record, a) == Ok(Token(b)) && Lookup(record, b) == Ok(x);
    TwoTokens(a, b);
    SubstituteChain(a, b, x, record);
  }
}
