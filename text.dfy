/**
  The operations of Rust's `str` that the pipeline relies on: `strip_prefix`,
  `strip_suffix`, `replace` and `lines`, on strings as sequences of characters.
 */
module Text {
  import opened Wrappers

  /** `str::strip_prefix`: the rest of `s` when it starts with `p`. */
  function StripPrefix(s: string, p: string): (r: Option<string>)
    ensures r.Some? <==> |p| <= |s| && s[..|p|] == p
    ensures r.Some? ==> p + r.value == s
  {
    if |p| <= |s| && s[..|p|] == p then Some(s[|p|..]) else None
  }

  /** `str::strip_suffix`: the part of `s` before `p` when it ends with `p`. */
  function StripSuffix(s: string, p: string): (r: Option<string>)
    ensures r.Some? <==> |p| <= |s| && s[|s| - |p|..] == p
    ensures r.Some? ==> r.value + p == s
  {
    if |p| <= |s| && s[|s| - |p|..] == p then Some(s[..|s| - |p|]) else None
  }

  // ---------------------------------------------------------------------------
  // str::replace
  // ---------------------------------------------------------------------------

  /** `pat` occurs in `s` starting at index `i`. */
  predicate OccursAt(pat: string, s: string, i: int)
  {
    0 <= i && i + |pat| <= |s| && s[i..i + |pat|] == pat
  }

  ghost predicate Occurs(pat: string, s: string)
  {
    exists i :: OccursAt(pat, s, i)
  }

  /**
    `str::replace(pat, rep)`: scanning from the left, each occurrence of `pat` is
    replaced by `rep` and the scan resumes after it, so occurrences never overlap.
   */
  function ReplaceAll(s: string, pat: string, rep: string): string
    requires pat != []
    decreases |s|
  {
    if |s| < |pat| then s
    else if s[..|pat|] == pat then rep + ReplaceAll(s[|pat|..], pat, rep)
    else [s[0]] + ReplaceAll(s[1..], pat, rep)
  }

  /** A text in which the pattern never occurs comes back unchanged. */
  lemma {:induction false} ReplaceAllAbsent(s: string, pat: string, rep: string)
    requires pat != [] && !Occurs(pat, s)
    ensures ReplaceAll(s, pat, rep) == s
  {
    if |s| >= |pat| {
      assert !OccursAt(pat, s, 0);
      assert s[..|pat|] == s[0..0 + |pat|];
      forall i | 0 <= i
        ensures !OccursAt(pat, s[1..], i)
      {
        assert !OccursAt(pat, s, i + 1);
        if i + |pat| <= |s| - 1 {
          assert s[1..][i..i + |pat|] == s[i + 1..i + 1 + |pat|];
        }
      }
      ReplaceAllAbsent(s[1..], pat, rep);
    }
  }

  /** Replacing a pattern by itself changes nothing. */
  lemma {:induction false} ReplaceAllIdentity(s: string, pat: string)
    requires pat != []
    ensures ReplaceAll(s, pat, pat) == s
  {
    if |s| >= |pat| {
      if s[..|pat|] == pat {
        ReplaceAllIdentity(s[|pat|..], pat);
        assert s == s[..|pat|] + s[|pat|..];
      } else {
        ReplaceAllIdentity(s[1..], pat);
        assert s == [s[0]] + s[1..];
      }
    }
  }

  /** A prefix that does not contain the pattern's first character passes through. */
  lemma {:induction false} ReplaceAllSkips(x: string, y: string, pat: string, rep: string)
    requires pat != [] && pat[0] !in x
    ensures ReplaceAll(x + y, pat, rep) == x + ReplaceAll(y, pat, rep)
  {
    if x != [] {
      var s := x + y;
      assert s[0] == x[0];
      assert |s| >= |pat| ==> s[..|pat|][0] != pat[0];
      assert s[1..] == x[1..] + y;
      ReplaceAllSkips(x[1..], y, pat, rep);
    } else {
      assert x + y == y;
    }
  }

  /** A prefix in which no occurrence of the pattern starts passes through. */
  lemma {:induction false} ReplaceAllPasses(x: string, y: string, pat: string, rep: string)
    requires pat != []
    requires forall i :: 0 <= i < |x| ==> !OccursAt(pat, x + y, i)
    ensures ReplaceAll(x + y, pat, rep) == x + ReplaceAll(y, pat, rep)
  {
    if x != [] {
      var s := x + y;
      assert s[1..] == x[1..] + y;
      assert !OccursAt(pat, s, 0);
      NoOccurrenceAtHead(s, pat, rep);
      OccursAtTail(x, y, pat);
      ReplaceAllPasses(x[1..], y, pat, rep);
      assert x == [x[0]] + x[1..];
    } else {
      assert x + y == y;
    }
  }

  lemma NoOccurrenceAtHead(s: string, pat: string, rep: string)
    requires pat != [] && s != [] && !OccursAt(pat, s, 0)
    ensures ReplaceAll(s, pat, rep) == [s[0]] + ReplaceAll(s[1..], pat, rep)
  {
    if |s| >= |pat| {
      assert s[..|pat|] == s[0..|pat|];
    }
    ReplaceAllNoHead(s, pat, rep);
  }

  /** No occurrence starting in `x` means none starting in `x` without its first character. */
  lemma OccursAtTail(x: string, y: string, pat: string)
    requires x != [] && forall i :: 0 <= i < |x| ==> !OccursAt(pat, x + y, i)
    ensures forall i :: 0 <= i < |x| - 1 ==> !OccursAt(pat, x[1..] + y, i)
  {
    var s := x + y;
    assert s[1..] == x[1..] + y;
    forall i | 0 <= i < |x| - 1
      ensures !OccursAt(pat, x[1..] + y, i)
    {
      assert !OccursAt(pat, s, i + 1);
      if i + |pat| <= |s| - 1 {
        assert (x[1..] + y)[i..i + |pat|] == s[i + 1..i + 1 + |pat|];
      }
    }
  }

  /** An occurrence at the very start is replaced and the scan resumes after it. */
  lemma ReplaceAllHead(y: string, pat: string, rep: string)
    requires pat != []
    ensures ReplaceAll(pat + y, pat, rep) == rep + ReplaceAll(y, pat, rep)
  {
    var s := pat + y;
    assert s[..|pat|] == pat;
    assert s[|pat|..] == y;
  }

  /** Without an occurrence at the start, the first character passes through. */
  lemma ReplaceAllNoHead(s: string, pat: string, rep: string)
    requires pat != [] && s != []
    requires |s| >= |pat| ==> s[..|pat|] != pat
    ensures ReplaceAll(s, pat, rep) == [s[0]] + ReplaceAll(s[1..], pat, rep)
  {
    if |s| < |pat| {
      assert ReplaceAll(s[1..], pat, rep) == s[1..];
      assert s == [s[0]] + s[1..];
    }
  }

  // ---------------------------------------------------------------------------
  // str::lines
  // ---------------------------------------------------------------------------

  /** The index of the first line feed of `s`, or `|s|` when there is none. */
  function NewlineIndex(s: string): (k: nat)
    ensures k <= |s|
    ensures '\n' !in s[..k]
    ensures k < |s| ==> s[k] == '\n'
  {
    if s == [] || s[0] == '\n' then 0
    else
      var k := 1 + NewlineIndex(s[1..]);
      assert s[..k] == [s[0]] + s[1..][..k - 1];
      k
  }

  predicate EndsWithCR(line: string)
  {
    line != [] && line[|line| - 1] == '\r'
  }

  /** The line ending of a terminated line is "\n" or "\r\n": a carriage return just before the feed goes too. */
  function DropCR(line: string): string
  {
    if EndsWithCR(line) then line[..|line| - 1] else line
  }

  /**
    `str::lines`: the text split at each line feed, with a carriage return just before
    a feed dropped too; a final line without a feed is kept as it is, and a final feed
    does not start an empty line.
   */
  function Lines(s: string): (r: seq<string>)
    ensures forall line <- r :: '\n' !in line
    ensures r == [] <==> s == []
    decreases |s|
  {
    if s == [] then []
    else
      var k := NewlineIndex(s);
      if k == |s| then
        assert s[..k] == s;
        [s]
      else
        [DropCR(s[..k])] + Lines(s[k + 1..])
  }

  /** The lines written back, each followed by a line feed. */
  function Terminated(lines: seq<string>): string
  {
    if lines == [] then "" else lines[0] + "\n" + Terminated(lines[1..])
  }

  /** Lines ending in "\n" are recovered exactly by `Lines`. */
  lemma {:induction false} LinesOfTerminated(lines: seq<string>)
    requires forall line <- lines :: '\n' !in line && !EndsWithCR(line)
    ensures Lines(Terminated(lines)) == lines
  {
    if lines != [] {
      var s := Terminated(lines);
      var head := lines[0];
      assert s == head + ("\n" + Terminated(lines[1..]));
      NewlineIndexAfter(head, Terminated(lines[1..]));
      assert s[..|head|] == head;
      assert s[|head| + 1..] == Terminated(lines[1..]);
      LinesOfTerminated(lines[1..]);
    }
  }

  /** The lines written back, each followed by a carriage return and a line feed. */
  function TerminatedCRLF(lines: seq<string>): string
  {
    if lines == [] then "" else lines[0] + "\r\n" + TerminatedCRLF(lines[1..])
  }

  /**
    Lines ending in "\r\n" are recovered exactly by `Lines`: the carriage return before
    each feed is dropped, and exactly that one, whatever other carriage returns the lines hold.
   */
  lemma {:induction false} LinesOfCRLF(lines: seq<string>)
    requires forall line <- lines :: '\n' !in line
    ensures Lines(TerminatedCRLF(lines)) == lines
  {
    if lines != [] {
      var s := TerminatedCRLF(lines);
      var head := lines[0] + "\r";
      assert '\n' !in head by { assert lines[0] in lines; }
      assert s == head + "\n" + TerminatedCRLF(lines[1..]);
      NewlineIndexAfter(head, TerminatedCRLF(lines[1..]));
      assert s[..|head|] == head;
      assert DropCR(head) == lines[0];
      assert s[|head| + 1..] == TerminatedCRLF(lines[1..]);
      LinesOfCRLF(lines[1..]);
    }
  }

  /** The first line feed of `head + "\n" + rest`, when `head` has none, ends `head`. */
  lemma {:induction false} NewlineIndexAfter(head: string, rest: string)
    requires '\n' !in head
    ensures NewlineIndex(head + "\n" + rest) == |head|
  {
    if head != [] {
      assert (head + "\n" + rest)[1..] == head[1..] + "\n" + rest;
      NewlineIndexAfter(head[1..], rest);
    }
  }

  /**
    Without carriage returns, writing the lines of a text back with a feed after each
    gives the text itself, with a final feed added when it had none.
   */
  lemma {:induction false} TerminatedLines(s: string)
    requires '\r' !in s
    ensures Terminated(Lines(s)) == if s == [] || s[|s| - 1] == '\n' then s else s + "\n"
    decreases |s|
  {
    if s != [] {
      var k := NewlineIndex(s);
      if k < |s| {
        var head, rest := s[..k], s[k + 1..];
        TerminatedFirstLine(s);
        TerminatedLines(rest);
        FinalFeed(head, rest, Terminated(Lines(rest)));
      } else {
        assert s[..k] == s;
        assert s[|s| - 1] in s[..k];
        assert Lines(s) == [s];
        assert Terminated([s]) == s + "\n" + Terminated([]);
      }
    }
  }

  /** The first line of a text without carriage returns is written back up to its feed. */
  lemma TerminatedFirstLine(s: string)
    requires '\r' !in s && NewlineIndex(s) < |s|
    ensures var k := NewlineIndex(s);
      s == s[..k] + "\n" + s[k + 1..] && '\r' !in s[k + 1..] &&
      Terminated(Lines(s)) == s[..k] + "\n" + Terminated(Lines(s[k + 1..]))
  {
    var k := NewlineIndex(s);
    var head, rest := s[..k], s[k + 1..];
    SplitAt(s, k);
    assert [s[k]] == "\n";
    assert '\r' !in head && '\r' !in rest;
    assert DropCR(head) == head;
    assert Lines(s) == [head] + Lines(rest);
  }

  lemma SplitAt(s: string, k: int)
    requires 0 <= k < |s|
    ensures s == s[..k] + [s[k]] + s[k + 1..]
  {
  }

  /** Putting a line and a feed before a text written back with its final feed. */
  lemma FinalFeed(head: string, rest: string, tail: string)
    requires tail == if rest == [] || rest[|rest| - 1] == '\n' then rest else rest + "\n"
    ensures var s := head + "\n" + rest;
      head + "\n" + tail == if s[|s| - 1] == '\n' then s else s + "\n"
  {
    var s := head + "\n" + rest;
    if rest == [] {
      assert s[|s| - 1] == '\n';
      assert head + "\n" + tail == s;
    } else if rest[|rest| - 1] == '\n' {
      assert s[|s| - 1] == '\n';
    } else {
      assert s[|s| - 1] == rest[|rest| - 1];
      assert head + "\n" + (rest + "\n") == s + "\n";
    }
  }
}
