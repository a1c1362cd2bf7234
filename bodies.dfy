/**
  Body rendering: every line of the template rendered against one data record, each
  rendered line preceded by a line feed, and one body per data record.
 */
module Bodies {
  import opened Wrappers
  import opened Records
  import Json
  import Text
  import opened Placeholders
  import Templates

  /**
    Renders the lines in order and stops at the first line that fails, the way the
    lazy `map` over `lines()` stops when `get_replaced_str` panics.
   */
  function RenderAll(lines: seq<string>, record: Json.Value): (r: Result<seq<string>, Panic>)
    ensures r.Ok? ==> |r.value| == |lines|
  {
    if lines == [] then Ok([])
    else
      match Render(lines[0], record)
      case Err(e) => Err(e)
      case Ok(v) =>
        match RenderAll(lines[1..], record)
        case Err(e) => Err(e)
        case Ok(vs) => Ok([v] + vs)
  }

  /** The fold of `get_bodies`: each rendered line preceded by a line feed. */
  function Join(rendered: seq<string>): string
  {
    if rendered == [] then "" else "\n" + rendered[0] + Join(rendered[1..])
  }

  /** One body: the template's lines rendered against one record and joined. */
  function Body(contents: string, record: Json.Value): Result<string, Panic>
  {
    match RenderAll(Text.Lines(contents), record)
    case Err(e) => Err(e)
    case Ok(vs) => Ok(Join(vs))
  }

  /** `get_bodies`: one body per record, in order, stopping at the first record that fails. */
  function Bodies(contents: string, records: seq<Json.Value>): (r: Result<seq<string>, Panic>)
    ensures r.Ok? ==> |r.value| == |records|
  {
    if records == [] then Ok([])
    else
      match Body(contents, records[0])
      case Err(e) => Err(e)
      case Ok(b) =>
        match Bodies(contents, records[1..])
        case Err(e) => Err(e)
        case Ok(bs) => Ok([b] + bs)
  }

  // ---------------------------------------------------------------------------
  // Properties of the specification
  // ---------------------------------------------------------------------------

  /** The lines render exactly when each of them does. */
  lemma {:induction false} RenderAllOkIff(lines: seq<string>, record: Json.Value)
    ensures RenderAll(lines, record).Ok? <==> forall i :: 0 <= i < |lines| ==> Render(lines[i], record).Ok?
  {
    if lines != [] {
      RenderAllOkIff(lines[1..], record);
      assert forall i :: 1 <= i < |lines| ==> lines[i] == lines[1..][i - 1];
    }
  }

  /** A successful result lists each line's rendering, in order. */
  lemma {:induction false} RenderAllValues(lines: seq<string>, record: Json.Value)
    requires RenderAll(lines, record).Ok?
    ensures forall i :: 0 <= i < |lines| ==>
      Render(lines[i], record).Ok? && RenderAll(lines, record).value[i] == Render(lines[i], record).value
  {
    if lines != [] {
      RenderAllValues(lines[1..], record);
      var r := RenderAll(lines, record).value;
      assert forall i :: 1 <= i < |lines| ==> r[i] == r[1..][i - 1] && lines[i] == lines[1..][i - 1];
    }
  }

  /** A failure is the failure of the first line that fails. */
  lemma {:induction false} RenderAllFirstError(lines: seq<string>, record: Json.Value)
    requires RenderAll(lines, record).Err?
    ensures exists i :: 0 <= i < |lines| && Render(lines[i], record) == Err(RenderAll(lines, record).error) &&
                        forall j :: 0 <= j < i ==> Render(lines[j], record).Ok?
  {
    var e := RenderAll(lines, record).error;
    if Render(lines[0], record).Err? {
      assert Render(lines[0], record) == Err(e);
    } else {
      RenderAllFirstError(lines[1..], record);
      var i :| 0 <= i < |lines| - 1 && Render(lines[1..][i], record) == Err(e) &&
        forall j :: 0 <= j < i ==> Render(lines[1..][j], record).Ok?;
      assert Render(lines[i + 1], record) == Err(e);
      assert forall j :: 1 <= j < i + 1 ==> lines[j] == lines[1..][j - 1];
    }
  }

  /** The bodies render exactly when each record's body does. */
  lemma {:induction false} BodiesOkIff(contents: string, records: seq<Json.Value>)
    ensures Bodies(contents, records).Ok? <==> forall i :: 0 <= i < |records| ==> Body(contents, records[i]).Ok?
  {
    if records != [] {
      BodiesOkIff(contents, records[1..]);
      assert forall i :: 1 <= i < |records| ==> records[i] == records[1..][i - 1];
    }
  }

  /** Successful bodies come out one per record, in the records' order. */
  lemma {:induction false} BodiesValues(contents: string, records: seq<Json.Value>)
    requires Bodies(contents, records).Ok?
    ensures forall i :: 0 <= i < |records| ==>
      Body(contents, records[i]).Ok? && Bodies(contents, records).value[i] == Body(contents, records[i]).value
  {
    if records != [] {
      BodiesValues(contents, records[1..]);
      var r := Bodies(contents, records).value;
      assert forall i :: 1 <= i < |records| ==> r[i] == r[1..][i - 1] && records[i] == records[1..][i - 1];
    }
  }

  /** A failure is the failure of the first record whose body fails. */
  lemma {:induction false} BodiesFirstError(contents: string, records: seq<Json.Value>)
    requires Bodies(contents, records).Err?
    ensures exists i :: 0 <= i < |records| && Body(contents, records[i]) == Err(Bodies(contents, records).error) &&
                        forall j :: 0 <= j < i ==> Body(contents, records[j]).Ok?
  {
    var e := Bodies(contents, records).error;
    if Body(contents, records[0]).Err? {
      assert Body(contents, records[0]) == Err(e);
    } else {
      BodiesFirstError(contents, records[1..]);
      var i :| 0 <= i < |records| - 1 && Body(contents, records[1..][i]) == Err(e) &&
        forall j :: 0 <= j < i ==> Body(contents, records[1..][j]).Ok?;
      assert Body(contents, records[i + 1]) == Err(e);
      assert forall j :: 1 <= j < i + 1 ==> records[j] == records[1..][j - 1];
    }
  }

  /** A joined body followed by a line feed is the rendered lines, each ended by a feed, after a leading feed. */
  lemma {:induction false} JoinTerminated(rendered: seq<string>)
    ensures Join(rendered) + "\n" == "\n" + Text.Terminated(rendered)
  {
    if rendered != [] {
      JoinTerminated(rendered[1..]);
      assert Join(rendered) + "\n" == "\n" + rendered[0] + (Join(rendered[1..]) + "\n");
    }
  }

  /** Whatever the rendered lines hold, their join is empty exactly when there are none, and otherwise starts with a line feed. */
  lemma JoinShape(rendered: seq<string>)
    ensures rendered == [] <==> Join(rendered) == ""
    ensures rendered != [] ==> Join(rendered)[0] == '\n'
  {
  }

  /** Every body is empty exactly when the template is, and otherwise starts with a line feed. */
  lemma BodyStartsWithFeed(contents: string, record: Json.Value)
    requires Body(contents, record).Ok?
    ensures Body(contents, record).value == "" <==> contents == ""
    ensures contents != "" ==> Body(contents, record).value[0] == '\n'
  {
    var vs := RenderAll(Text.Lines(contents), record).value;
    JoinShape(vs);
  }

  /**
    A body starts with a line feed unless no line was rendered, and the rendered lines
    can be read back from it: splitting what follows the leading feed, with a final
    feed added, gives them again whenever none contains a feed or ends with a carriage return.
   */
  lemma BodyReadsBack(rendered: seq<string>)
    requires forall v <- rendered :: '\n' !in v && !Text.EndsWithCR(v)
    ensures rendered == [] <==> Join(rendered) == ""
    ensures rendered != [] ==> Join(rendered)[0] == '\n' && Text.Lines(Join(rendered)[1..] + "\n") == rendered
  {
    JoinShape(rendered);
    if rendered != [] {
      JoinTerminated(rendered);
      var b := Join(rendered);
      assert (b + "\n")[1..] == b[1..] + "\n";
      Text.LinesOfTerminated(rendered);
    }
  }

  /** An empty template gives an empty body whatever the record holds. */
  lemma EmptyTemplateEmptyBody(record: Json.Value)
    ensures Body("", record) == Ok("")
  {
  }

  // ---------------------------------------------------------------------------
  // The loops of get_bodies
  // ---------------------------------------------------------------------------

  /** What a fold that has built `acc` so far ends with, given how the remaining lines render. */
  function Continue(acc: string, rest: Result<seq<string>, Panic>): Result<string, Panic>
  {
    match rest
    case Err(e) => Err(e)
    case Ok(vs) => Ok(acc + Join(vs))
  }

  lemma ContinueStep(acc: string, lines: seq<string>, record: Json.Value)
    requires lines != [] && Render(lines[0], record).Ok?
    ensures Continue(acc, RenderAll(lines, record)) ==
      Continue(acc + "\n" + Render(lines[0], record).value, RenderAll(lines[1..], record))
  {
    var v := Render(lines[0], record).value;
    if RenderAll(lines[1..], record).Ok? {
      var vs := RenderAll(lines[1..], record).value;
      assert RenderAll(lines, record) == Ok([v] + vs);
      JoinCons(acc, v, vs);
    }
  }

  lemma JoinCons(acc: string, v: string, vs: seq<string>)
    ensures acc + Join([v] + vs) == acc + "\n" + v + Join(vs)
  {
    assert ([v] + vs)[0] == v && ([v] + vs)[1..] == vs;
  }

  /**
    One body as `get_bodies` builds it: the template's lines rendered one at a time,
    each appended to a growing text after a line feed.
   */
  method RenderBody(contents: string, record: Json.Value) returns (r: Result<string, Panic>)
    ensures r == Body(contents, record)
  {
    var acc := "";
    var rest := Text.Lines(contents);  // the lines not yet folded in
    if RenderAll(rest, record).Ok? {
      assert "" + Join(RenderAll(rest, record).value) == Join(RenderAll(rest, record).value);
    }
    while rest != []
      invariant Continue(acc, RenderAll(rest, record)) == Body(contents, record)
      decreases |rest|
    {
      var line := GetReplacedStr(rest[0], record);
      if line.Err? {
        return Err(line.error);
      }
      ContinueStep(acc, rest, record);
      acc := acc + "\n" + line.value;
      rest := rest[1..];
    }
    assert acc + Join([]) == acc;
    r := Ok(acc);
  }

  /** What a collection that has produced `done` so far ends with, given how the remaining records render. */
  function Collect(done: seq<string>, rest: Result<seq<string>, Panic>): Result<seq<string>, Panic>
  {
    match rest
    case Err(e) => Err(e)
    case Ok(bs) => Ok(done + bs)
  }

  lemma CollectStep(done: seq<string>, contents: string, records: seq<Json.Value>)
    requires records != [] && Body(contents, records[0]).Ok?
    ensures Collect(done, Bodies(contents, records)) ==
      Collect(done + [Body(contents, records[0]).value], Bodies(contents, records[1..]))
  {
    if Bodies(contents, records[1..]).Ok? {
      var b, bs := Body(contents, records[0]).value, Bodies(contents, records[1..]).value;
      assert done + ([b] + bs) == done + [b] + bs;
    }
  }

  /** `get_bodies`: one body per data record, in order. */
  method GetBodies(contents: string, records: seq<Json.Value>) returns (r: Result<seq<string>, Panic>)
    ensures r == Bodies(contents, records)
  {
    var bodies: seq<string> := [];
    var rest := records;  // the records not yet rendered
    if Bodies(contents, rest).Ok? {
      assert [] + Bodies(contents, rest).value == Bodies(contents, rest).value;
    }
    while rest != []
      invariant Collect(bodies, Bodies(contents, rest)) == Bodies(contents, records)
      decreases |rest|
    {
      var body := RenderBody(contents, rest[0]);
      if body.Err? {
        return Err(body.error);
      }
      CollectStep(bodies, contents, rest);
      bodies := bodies + [body.value];
      rest := rest[1..];
    }
    assert bodies + [] == bodies;
    r := Ok(bodies);
  }

  // ---------------------------------------------------------------------------
  // Instances
  // ---------------------------------------------------------------------------

  /** A text of two lines split at its one line feed. */
  lemma LinesOfTwo(first: string, second: string)
    requires '\n' !in first && '\n' !in second && !Text.EndsWithCR(first) && second != []
    ensures Text.Lines(first + "\n" + second) == [first, second]
  {
    var contents := first + "\n" + second;
    Text.NewlineIndexAfter(first, second);
    assert contents[..|first|] == first && contents[|first| + 1..] == second;
    LastLine(second);
  }

  /** Two lines that both render give their two renderings. */
  lemma RenderTwo(first: string, second: string, record: Json.Value)
    requires Render(first, record).Ok? && Render(second, record).Ok?
    ensures RenderAll([first, second], record) == Ok([Render(first, record).value, Render(second, record).value])
  {
    var v1, v2 := Render(first, record).value, Render(second, record).value;
    assert RenderAll([second], record) == Ok([v2]) by {
      assert [second][0] == second && [second][1..] == [];
      assert RenderAll([], record) == Ok([]);
      assert [v2] + [] == [v2];
    }
    assert [first, second][0] == first && [first, second][1..] == [second];
    assert [v1] + [v2] == [v1, v2];
  }

  /** A template of two lines renders each line and puts a line feed before each. */
  lemma TwoLineBody(first: string, second: string, record: Json.Value)
    requires '\n' !in first && '\n' !in second && !Text.EndsWithCR(first) && second != []
    requires Render(first, record).Ok? && Render(second, record).Ok?
    ensures Body(first + "\n" + second, record) ==
      Ok("\n" + Render(first, record).value + "\n" + Render(second, record).value)
  {
    LinesOfTwo(first, second);
    RenderTwo(first, second, record);
    var v1, v2 := Render(first, record).value, Render(second, record).value;
    assert [v1, v2][0] == v1 && [v1, v2][1..] == [v2] && [v2][1..] == [];
    assert Join([v2]) == "\n" + v2 + Join([]);
    assert Join([v2]) == "\n" + v2;
    assert Join([v1, v2]) == "\n" + v1 + ("\n" + v2);
    assert "\n" + v1 + ("\n" + v2) == "\n" + v1 + "\n" + v2;
    assert Body(first + "\n" + second, record) == Ok(Join([v1, v2]));
  }

  /** A text without a line feed is a single line of its own. */
  lemma LastLine(s: string)
    requires '\n' !in s && s != []
    ensures Text.Lines(s) == [s]
  {
  }

  /** Facts about the two lines of the body test's template. */
  lemma GreetingLines()
    ensures '\n' !in "Hello, {name}." && '\n' !in "I am so {feeling}." && !Text.EndsWithCR("Hello, {name}.")
    ensures '{' !in "Hello, " && '{' !in "I am so " && '{' !in "."
    ensures Templates.IsName("name") && Templates.IsName("feeling")
    ensures "Hello, {name}." == "Hello, " + Templates.Token("name") + "."
    ensures "I am so {feeling}." == "I am so " + Templates.Token("feeling") + "."
  {
    GreetingFirstLine();
    GreetingSecondLine();
  }

  lemma GreetingFirstLine()
    ensures '\n' !in "Hello, {name}." && !Text.EndsWithCR("Hello, {name}.") && '{' !in "Hello, " && '{' !in "."
    ensures Templates.IsName("name") && "Hello, {name}." == "Hello, " + Templates.Token("name") + "."
  {
  }

  lemma GreetingSecondLine()
    ensures '\n' !in "I am so {feeling}." && '{' !in "I am so "
    ensures Templates.IsName("feeling") && "I am so {feeling}." == "I am so " + Templates.Token("feeling") + "."
  {
  }

  /**
    The body test's template renders, for a record giving `name` and `feeling`, to
    its two lines with the values put in, each after a line feed.
   */
  lemma GreetingBody(contents: string, name: string, feeling: string)
    requires contents == "Hello, {name}." + "\n" + "I am so {feeling}."
    requires Inert(name) && Inert(feeling)
    ensures Body(contents, Json.Object(map["name" := Json.String(name), "feeling" := Json.String(feeling)]))
         == Ok("\n" + ("Hello, " + name + ".") + "\n" + ("I am so " + feeling + "."))
  {
    var record := Json.Object(map["name" := Json.String(name), "feeling" := Json.String(feeling)]);
    var first, second := "Hello, {name}.", "I am so {feeling}.";
    assert Lookup(record, "name") == Ok(name) && Lookup(record, "feeling") == Ok(feeling);
    GreetingLines();
    BraceFreeInert("Hello, ");
    BraceFreeInert("I am so ");
    BraceFreeInert(".");
    Templates.RenderOneHole("Hello, ", "name", ".", record);
    Templates.RenderOneHole("I am so ", "feeling", ".", record);
    TwoLineBody(first, second, record);
  }

  /**
    The body test, for any values: two records give their two bodies, in the records'
    order (the test itself takes "buddy"/"great" and "mate"/"happy").
   */
  lemma GetBodyFormats(contents: string, name1: string, feeling1: string, name2: string, feeling2: string)
    requires contents == "Hello, {name}." + "\n" + "I am so {feeling}."
    requires Inert(name1) && Inert(feeling1) && Inert(name2) && Inert(feeling2)
    ensures Bodies(contents,
                   [Json.Object(map["name" := Json.String(name1), "feeling" := Json.String(feeling1)]),
                    Json.Object(map["name" := Json.String(name2), "feeling" := Json.String(feeling2)])])
         == Ok(["\n" + ("Hello, " + name1 + ".") + "\n" + ("I am so " + feeling1 + "."),
                "\n" + ("Hello, " + name2 + ".") + "\n" + ("I am so " + feeling2 + ".")])
  {
    var r1 := Json.Object(map["name" := Json.String(name1), "feeling" := Json.String(feeling1)]);
    var r2 := Json.Object(map["name" := Json.String(name2), "feeling" := Json.String(feeling2)]);
    GreetingBody(contents, name1, feeling1);
    GreetingBody(contents, name2, feeling2);
    var b2 := "\n" + ("Hello, " + name2 + ".") + "\n" + ("I am so " + feeling2 + ".");
    assert Bodies(contents, [r2]) == Ok([b2]) by {
      assert [r2][0] == r2 && [r2][1..] == [];
      assert Bodies(contents, []) == Ok([]);
      assert [b2] + [] == [b2];
    }
    var b1 := "\n" + ("Hello, " + name1 + ".") + "\n" + ("I am so " + feeling1 + ".");
    assert Body(contents, r1) == Ok(b1);
    assert [r1, r2][0] == r1 && [r1, r2][1..] == [r2];
    assert Bodies(contents, [r1, r2]) == Ok([b1] + [b2]);
    assert [b1] + [b2] == [b1, b2];
  }
}
