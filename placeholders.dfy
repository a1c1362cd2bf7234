/**
  The placeholder resolver: recognising `{name}` tokens in one template line, looking
  each name up in a data record and substituting its string value.
 */
module Placeholders {
  import opened Wrappers
  import opened Records
  import Json
  import Text

  const Prefix: string := "{"
  const Suffix: string := "}"

  /** Removes exactly one leading `{` and one trailing `}`; `None` where the source's `unwrap`s panic. */
  function StripPrefixSuffix(s: string): (r: Option<string>)
    ensures r.Some? <==> |s| >= 2 && s[0] == '{' && s[|s| - 1] == '}'
    ensures r.Some? ==> Prefix + r.value + Suffix == s
  {
    match Text.StripPrefix(s, Prefix)
    case None => None
    case Some(rest) => Text.StripSuffix(rest, Suffix)
  }

  /** Wrapping a name in braces and stripping them again gives the name back. */
  lemma StripWrapped(name: string)
    ensures StripPrefixSuffix(Prefix + name + Suffix) == Some(name)
  {
    var s := Prefix + name + Suffix;
    assert s[..1] == Prefix && s[1..] == name + Suffix;
    assert (name + Suffix)[..|name|] == name;
  }

  /** Only the outer layer goes: `{abc}` gives `abc`, `{{abc}}` gives `{abc}`. */
  lemma StripExamples()
    ensures StripPrefixSuffix("{abc}") == Some("abc")
    ensures StripPrefixSuffix("{{abc}}") == Some("{abc}")
    ensures StripPrefixSuffix("abc}") == None && StripPrefixSuffix("{abc") == None
  {
    StripWrapped("abc");
    assert "{abc}" == Prefix + "abc" + Suffix;
    StripWrapped("{abc}");
    assert "{{abc}}" == Prefix + "{abc}" + Suffix;
  }

  // ---------------------------------------------------------------------------
  // The token recogniser for [{][a-zA-Z]+[}]
  // ---------------------------------------------------------------------------

  predicate IsLetter(c: char)
  {
    'a' <= c <= 'z' || 'A' <= c <= 'Z'
  }

  /** A match of `[{][a-zA-Z]+[}]`: a brace, one or more ASCII letters, a closing brace. */
  predicate IsPlaceholder(t: string)
  {
    |t| >= 3 && t[0] == '{' && t[|t| - 1] == '}' &&
    forall k :: 1 <= k < |t| - 1 ==> IsLetter(t[k])
  }

  /** Wrapped in one `{` and one `}`, what `strip_prefix_suffix` accepts. */
  predicate Braced(t: string)
  {
    |t| >= 2 && t[0] == '{' && t[|t| - 1] == '}'
  }

  ghost predicate ContainsPlaceholder(s: string)
  {
    exists i, j :: 0 <= i <= j <= |s| && IsPlaceholder(s[i..j])
  }

  /** The length of the run of ASCII letters that starts `s`. */
  function LetterRun(s: string): (n: nat)
    ensures n <= |s|
    ensures forall k :: 0 <= k < n ==> IsLetter(s[k])
    ensures n < |s| ==> !IsLetter(s[n])
  {
    if s != [] && IsLetter(s[0]) then 1 + LetterRun(s[1..]) else 0
  }

  /**
    The length of the placeholder that starts `s`, if one does: at a `{`, the maximal run
    of letters, when it is not empty and a `}` follows it.
   */
  function MatchLength(s: string): (r: Option<nat>)
    ensures r.Some? ==> 3 <= r.value <= |s| && IsPlaceholder(s[..r.value])
  {
    if s != [] && s[0] == '{' then
      var n := LetterRun(s[1..]);
      if 0 < n && n + 1 < |s| && s[n + 1] == '}' then
        assert forall k :: 0 <= k < n ==> s[..n + 2][k + 1] == s[1..][k];
        Some(n + 2)
      else None
    else None
  }

  /** Conversely, a placeholder at the start of `s` is exactly what `MatchLength` finds. */
  lemma MatchLengthComplete(s: string, m: nat)
    requires m <= |s| && IsPlaceholder(s[..m])
    ensures MatchLength(s) == Some(m)
  {
    PlaceholderAtStart(s, m);
  }

  /** A placeholder at the start of `s` spans the letter run after the brace and the `}` after it. */
  lemma PlaceholderAtStart(s: string, m: nat)
    requires m <= |s| && IsPlaceholder(s[..m])
    ensures s[0] == '{' && LetterRun(s[1..]) == m - 2 && s[m - 1] == '}'
  {
    var t := s[..m];
    assert t[0] == s[0] && t[m - 1] == s[m - 1];
    assert forall k :: 0 <= k < m - 2 ==> s[1..][k] == t[k + 1];
    if m - 2 < |s[1..]| {
      assert s[1..][m - 2] == s[m - 1];
    }
  }

  /**
    The tokens `captures_iter` yields: the leftmost placeholder, then the ones after it;
    where no placeholder starts, the scan moves on by one character.
   */
  function Tokens(s: string): (r: seq<string>)
    ensures forall t <- r :: Braced(t)
    decreases |s|
  {
    if s == [] then []
    else
      match MatchLength(s)
      case Some(n) =>
        assert IsPlaceholder(s[..n]);
        [s[..n]] + Tokens(s[n..])
      case None => Tokens(s[1..])
  }

  /** Every token is a match of `[{][a-zA-Z]+[}]`: braces around one or more ASCII letters. */
  lemma {:induction false} TokensSound(s: string)
    ensures forall t <- Tokens(s) :: IsPlaceholder(t)
    decreases |s|
  {
    if s != [] {
      match MatchLength(s)
      case Some(n) =>
        TokensSound(s[n..]);
        assert forall t <- Tokens(s) :: t == s[..n] || t in Tokens(s[n..]);
      case None =>
        TokensSound(s[1..]);
    }
  }

  /** Every placeholder in a line, wherever it stands, is among its tokens. */
  lemma {:induction false} TokensComplete(s: string, i: nat, j: nat)
    requires i <= j <= |s| && IsPlaceholder(s[i..j])
    ensures s[i..j] in Tokens(s)
    decreases |s|
  {
    if i == 0 {
      assert s[..j] == s[i..j];
      MatchLengthComplete(s, j);
    } else {
      match MatchLength(s)
      case None =>
        assert s[1..][i - 1..j - 1] == s[i..j];
        TokensComplete(s[1..], i - 1, j - 1);
      case Some(n) =>
        if n <= i {
          assert s[n..][i - n..j - n] == s[i..j];
          TokensComplete(s[n..], i - n, j - n);
        } else {
          // the placeholder starting at 0 spans i, where only letters or its closing brace stand
          NoBraceInside(s[..n], i);
          assert false;
        }
    }
  }

  /** Past its first character, a placeholder holds no opening brace. */
  lemma NoBraceInside(t: string, k: int)
    requires IsPlaceholder(t) && 0 < k < |t|
    ensures t[k] != '{'
  {
  }

  /**
    The brace at `i` cannot start a placeholder, whatever follows `x`: its run of letters
    ends inside `x`, at a character that is not a closing brace unless the run is empty.
   */
  predicate BraceStaysOpen(x: string, i: int)
    requires 0 <= i < |x|
  {
    var n := LetterRun(x[i + 1..]);
    i + 1 + n < |x| && (n == 0 || x[i + 1 + n] != '}')
  }

  /**
    Literal text in which no placeholder can start, whatever follows it: each `{` is
    followed within it by a non-letter, or by letters and then neither `}` nor the end,
    as in `{}`, `{1}`, `{a_b}` or `{a b}`.
   */
  predicate Inert(x: string)
  {
    forall i :: 0 <= i < |x| && x[i] == '{' ==> BraceStaysOpen(x, i)
  }

  /** Text without an opening brace is inert. */
  lemma BraceFreeInert(x: string)
    requires '{' !in x
    ensures Inert(x)
  {
  }

  /** The letter run of `a` is not lengthened by what follows when it ends inside `a`. */
  lemma {:induction false} LetterRunPrefix(a: string, b: string)
    requires LetterRun(a) < |a|
    ensures LetterRun(a + b) == LetterRun(a)
  {
    if IsLetter(a[0]) {
      assert (a + b)[1..] == a[1..] + b;
      LetterRunPrefix(a[1..], b);
    }
  }

  /** Dropping the first character of inert text leaves inert text. */
  lemma InertTail(x: string)
    requires x != [] && Inert(x)
    ensures Inert(x[1..])
  {
    var t := x[1..];
    forall i | 0 <= i < |t| && t[i] == '{'
      ensures BraceStaysOpen(t, i)
    {
      assert x[i + 1] == '{' && BraceStaysOpen(x, i + 1);
      assert t[i + 1..] == x[i + 2..];
    }
  }

  /** No placeholder starts at the first character of inert text, whatever follows it. */
  lemma InertNoMatch(x: string, y: string)
    requires x != [] && Inert(x)
    ensures MatchLength(x + y) == None
  {
    var s := x + y;
    if x[0] == '{' {
      assert BraceStaysOpen(x, 0);
      var n := LetterRun(x[1..]);
      assert s[1..] == x[1..] + y;
      LetterRunPrefix(x[1..], y);
      assert s[n + 1] == x[n + 1];
    }
  }

  /** A placeholder at the start of a line is a placeholder contained in it. */
  lemma PrefixPlaceholder(s: string, n: nat)
    requires n <= |s| && IsPlaceholder(s[..n])
    ensures ContainsPlaceholder(s)
  {
    assert s[0..n] == s[..n];
  }

  /** A line without any placeholder yields no tokens. */
  lemma {:induction false} NoPlaceholderNoTokens(s: string)
    requires !ContainsPlaceholder(s)
    ensures Tokens(s) == []
    decreases |s|
  {
    if s != [] {
      match MatchLength(s)
      case Some(n) =>
        PrefixPlaceholder(s, n);
        assert false;
      case None =>
        assert !ContainsPlaceholder(s[1..]) by {
          forall i, j | 0 <= i <= j <= |s| - 1
            ensures !IsPlaceholder(s[1..][i..j])
          {
            assert s[1..][i..j] == s[i + 1..j + 1];
          }
        }
        NoPlaceholderNoTokens(s[1..]);
    }
  }

  /** A line has tokens exactly when it contains a placeholder. */
  lemma TokensEmptyIff(s: string)
    ensures Tokens(s) == [] <==> !ContainsPlaceholder(s)
  {
    if ContainsPlaceholder(s) {
      var i, j :| 0 <= i <= j <= |s| && IsPlaceholder(s[i..j]);
      TokensComplete(s, i, j);
    } else {
      NoPlaceholderNoTokens(s);
    }
  }

  // ---------------------------------------------------------------------------
  // Lookup and substitution
  // ---------------------------------------------------------------------------

  /** The name inside a token's braces: `strip_prefix_suffix` applied to the token, which cannot panic there. */
  function Key(token: string): (k: string)
    requires Braced(token)
    ensures Prefix + k + Suffix == token
  {
    StripPrefixSuffix(token).value
  }

  /** `json.get(key).unwrap().as_str().unwrap()`: the string value, or the panic of either `unwrap`. */
  function Lookup(record: Json.Value, key: string): (r: Result<string, Panic>)
    ensures r.Ok? <==> record.Object? && key in record.fields && record.fields[key].String?
    ensures r.Ok? ==> r.value == record.fields[key].s
    ensures r.Err? ==> r.error == (if record.Object? && key in record.fields then NotAString(key) else MissingKey(key))
  {
    match Json.Get(record, key)
    case None => Err(MissingKey(key))
    case Some(v) =>
      match Json.AsStr(v)
      case None => Err(NotAString(key))
      case Some(s) => Ok(s)
  }

  /**
    The fold of `get_replaced_str`: for each token in turn, its value replaces every
    occurrence of the token in the text as updated so far.
   */
  function Substitute(text: string, tokens: seq<string>, record: Json.Value): Result<string, Panic>
    requires forall t <- tokens :: Braced(t)
    decreases |tokens|
  {
    if tokens == [] then Ok(text)
    else
      match Lookup(record, Key(tokens[0]))
      case Err(e) => Err(e)
      case Ok(v) => Substitute(Text.ReplaceAll(text, tokens[0], v), tokens[1..], record)
  }

  /** One step of the fold: the first token's lookup, then the rest on the updated text. */
  lemma SubstituteCons(text: string, t: string, rest: seq<string>, record: Json.Value)
    requires Braced(t) && forall u <- rest :: Braced(u)
    ensures Lookup(record, Key(t)).Err? ==> Substitute(text, [t] + rest, record) == Err(Lookup(record, Key(t)).error)
    ensures Lookup(record, Key(t)).Ok? ==>
      Substitute(text, [t] + rest, record) == Substitute(Text.ReplaceAll(text, t, Lookup(record, Key(t)).value), rest, record)
  {
    assert ([t] + rest)[0] == t && ([t] + rest)[1..] == rest;
  }

  /** The rendering of one line: its tokens, found in the original line, substituted in order. */
  function Render(line: string, record: Json.Value): Result<string, Panic>
  {
    Substitute(line, Tokens(line), record)
  }

  /** Substitution succeeds exactly when every token's name has a string value. */
  lemma {:induction false} SubstituteOkIff(text: string, tokens: seq<string>, record: Json.Value)
    requires forall t <- tokens :: Braced(t)
    ensures Substitute(text, tokens, record).Ok? <==> forall t <- tokens :: Lookup(record, Key(t)).Ok?
    decreases |tokens|
  {
    if tokens != [] {
      var v := Lookup(record, Key(tokens[0]));
      if v.Ok? {
        SubstituteOkIff(Text.ReplaceAll(text, tokens[0], v.value), tokens[1..], record);
        assert forall t <- tokens :: t == tokens[0] || t in tokens[1..];
      }
    }
  }

  /** Strict lookup: rendering succeeds exactly when every token of the line has a string value. */
  lemma RenderOkIff(line: string, record: Json.Value)
    ensures Render(line, record).Ok? <==> forall t <- Tokens(line) :: Lookup(record, Key(t)).Ok?
  {
    SubstituteOkIff(line, Tokens(line), record);
  }

  /**
    Nothing is skipped: a placeholder anywhere in the line whose name is missing from the
    record, or is not a string there, makes the whole line fail.
   */
  lemma RenderFailsOnUnresolved(line: string, i: nat, j: nat, record: Json.Value)
    requires i <= j <= |line| && IsPlaceholder(line[i..j])
    requires Lookup(record, line[i + 1..j - 1]).Err?
    ensures Render(line, record).Err?
  {
    var t := line[i..j];
    TokensComplete(line, i, j);
    KeyInside(t);
    InnerSlice(line, i, j);
    RenderOkIff(line, record);
  }

  /** A token's key is the text between its braces. */
  lemma KeyInside(t: string)
    requires Braced(t)
    ensures Key(t) == t[1..|t| - 1]
  {
    var k := Key(t);
    assert t == Prefix + k + Suffix;
    assert t[1..|t| - 1] == k;
  }

  lemma InnerSlice(s: string, i: nat, j: nat)
    requires i + 2 <= j <= |s|
    ensures s[i..j][1..j - i - 1] == s[i + 1..j - 1]
  {
    var inner, middle := s[i..j][1..j - i - 1], s[i + 1..j - 1];
    assert forall k :: 0 <= k < |inner| ==> inner[k] == middle[k];
  }

  /** A line without placeholders is returned unchanged, whatever the record holds. */
  lemma RenderWithoutPlaceholder(line: string, record: Json.Value)
    requires !ContainsPlaceholder(line)
    ensures Render(line, record) == Ok(line)
  {
    NoPlaceholderNoTokens(line);
  }

  /**
    Braces around nothing, or around text with anything but ASCII letters (a digit, an
    underscore, a space), do not form a placeholder: they come back literally,
    whatever the record holds.
   */
  lemma LiteralBraces(inner: string, record: Json.Value)
    requires '{' !in inner && '}' !in inner
    requires inner == [] || exists k :: 0 <= k < |inner| && !IsLetter(inner[k])
    ensures Render(Prefix + inner + Suffix, record) == Ok(Prefix + inner + Suffix)
  {
    var s := Prefix + inner + Suffix;
    forall i, j | 0 <= i <= j <= |s| && IsPlaceholder(s[i..j])
      ensures false
    {
      OnlyOuterBraces(inner, i, j);
      assert s[i..j] == s;
      WholeNotPlaceholder(inner);
    }
    RenderWithoutPlaceholder(s, record);
  }

  lemma WholeNotPlaceholder(inner: string)
    requires inner == [] || exists k :: 0 <= k < |inner| && !IsLetter(inner[k])
    ensures !IsPlaceholder(Prefix + inner + Suffix)
  {
    if inner != [] {
      var k :| 0 <= k < |inner| && !IsLetter(inner[k]);
      assert (Prefix + inner + Suffix)[k + 1] == inner[k];
    }
  }

  /** In a braced text whose inside holds no brace, a placeholder can only be the whole text. */
  lemma OnlyOuterBraces(inner: string, i: nat, j: nat)
    requires '{' !in inner && '}' !in inner
    requires i <= j <= |inner| + 2 && IsPlaceholder((Prefix + inner + Suffix)[i..j])
    ensures i == 0 && j == |inner| + 2
  {
    var s := Prefix + inner + Suffix;
    var t := s[i..j];
    assert t[0] == s[i] && t[|t| - 1] == s[j - 1];
  }

  /**
    `get_replaced_str`: scans the original line for placeholders and, for each one,
    replaces all its occurrences in the progressively updated result by its value.
   */
  method GetReplacedStr(s: string, json: Json.Value) returns (r: Result<string, Panic>)
    ensures r == Render(s, json)
  {
    var result := s;
    var rest := s;  // the part of the line the scan has not reached
    while rest != []
      invariant Substitute(result, Tokens(rest), json) == Render(s, json)
      decreases |rest|
    {
      var m := MatchLength(rest);
      if m.Some? {
        var token := rest[..m.value];
        var value := Lookup(json, Key(token));
        SubstituteCons(result, token, Tokens(rest[m.value..]), json);
        if value.Err? {
          return Err(value.error);
        }
        result := Text.ReplaceAll(result, token, value.value);
        rest := rest[m.value..];
      } else {
        rest := rest[1..];
      }
    }
    r := Ok(result);
  }
}
