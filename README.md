# email_template in Dafny

A model of the email_template library: a Rust crate that turns a plain-text template
and a JSON data file into one email message per data record. The template's lines
hold placeholders written `{name}`. Each data record supplies string values for those
names. The data file's header gives one sender, one subject and a list of recipients,
and message `i` goes to recipient `i`.

The model follows the pipeline stage by stage:

- `Text` models the parts of Rust's `str` that the pipeline relies on: `strip_prefix`, `strip_suffix`, `replace` and `lines`.
- `Json` models serde_json's `Value` with `get` and `as_str`.
- `Records` holds the records of the library and the reasons a build panics.
- `Placeholders` models the token recogniser for `[{][a-zA-Z]+[}]`, `strip_prefix_suffix` and `get_replaced_str`. It contains an imperative scan, proved equal to a specification function `Render`.
- `Templates` explains what `Render` does. A line assembled from literal text and `{name}` holes renders to the text with each hole's value put in. A hole without a string value makes the line fail. These theorems need the literal text and the values to be *inert*: no placeholder starts in them, whatever follows. Text without `{` is inert, and so are `{}`, `{1}` and `{a b}`. A value that spells a token is not inert. It is replaced again by a later token, which `Templates.InsertedTokenReplacedAgain` shows.
- `Bodies` models `get_bodies`: the template's lines rendered against each record, each after a line feed. It has specification functions and the two imperative loops.
- `Headers` models `get_headers`.
- `Assembly` models `generate_emails`: an imperative loop proved against a specification function.
- `Lib` models `EmailMessage::create` and the composition in `build_emails`; `Header::create` sits with the records in `Records`.

The unwraps of `strip_prefix_suffix` (src/utils.rs:13 and 15) give `None` in `Placeholders.StripPrefixSuffix`. They cannot fire while rendering, because every token is braced. The two unwraps of the lookup (src/utils.rs:30) become error results, and so does a missing header in `build_emails`. `Panic` records which one fired:

- `MissingKey`: the record has no such field.
- `NotAString`: the field exists but is not a string.
- `MissingHeader`: there are more bodies than recipients.

The unwraps of `generate_emails` are handled differently:

- `headers.get(i).unwrap()` (src/utils.rs:86) becomes a precondition of `Assembly.GenerateEmails`: its callers must supply at least as many headers as bodies. `Lib.BuildEmails` checks this and reports a violation as `MissingHeader`.
- The mailbox parsing and the message builder (src/utils.rs:87-92), with their unwraps, are not modelled (see "Left out").

Rendering reproduces the source's order exactly:

- Tokens are found in the original line.
- Each token's value replaces every occurrence of that token in the text as updated so far.
- A value that spells a later token is therefore replaced again (`Templates.InsertedTokenReplacedAgain`).

## Model

| member | source | states |
|---|---|---|
| Text.StripPrefix | src/utils.rs:12-13 | the rest is returned exactly when the text starts with the prefix, and prefix + rest is the text |
| Text.StripSuffix | src/utils.rs:14-15 | the front is returned exactly when the text ends with the suffix, and front + suffix is the text |
| Text.ReplaceAll | src/utils.rs:31 | defines `str::replace`: scanning from the left, each occurrence is replaced and the scan resumes after it; its properties are the `ReplaceAll…` lemmas below |
| Text.ReplaceAllAbsent | src/utils.rs:31 | `replace` leaves a text in which the pattern does not occur unchanged |
| Text.ReplaceAllIdentity | src/utils.rs:31 | replacing a pattern by itself changes nothing |
| Text.ReplaceAllHead | src/utils.rs:31 | an occurrence at the start is replaced and the scan resumes after it, so occurrences do not overlap |
| Text.ReplaceAllSkips | src/utils.rs:31 | text that does not contain the pattern's first character passes through unchanged |
| Text.ReplaceAllPasses | src/utils.rs:31 | a prefix in which no occurrence of the pattern starts passes through unchanged, even when it holds the pattern's first character |
| Text.Lines | src/utils.rs:69 | `lines` yields no line holding a line feed, and yields no lines exactly for the empty text; how it treats `\n` and `\r\n` endings is stated by `LinesOfTerminated` and `LinesOfCRLF` |
| Text.LinesOfTerminated | src/utils.rs:69 | lines each followed by a feed are split back into exactly those lines, with no trailing empty line |
| Text.TerminatedLines | src/utils.rs:69 | without carriage returns, the lines written back with a feed after each give the text, plus a final feed when it had none |
| Text.LinesOfCRLF | src/utils.rs:69 | lines each followed by `\r\n` are split back into exactly those lines: the carriage return before each feed is dropped, and only that one |
| Placeholders.StripPrefixSuffix | src/utils.rs:11-17 | succeeds exactly when the text starts with `{` and ends with `}`, and then `{` + result + `}` is the text |
| Placeholders.StripWrapped | src/utils.rs:11-17 | exactly one outer `{` and `}` are removed from any wrapped text |
| Placeholders.StripExamples | src/utils.rs:103-110 | `{abc}` gives `abc` and `{{abc}}` gives `{abc}`; a missing brace on either side fails |
| Placeholders.LetterRun | src/utils.rs:21 | the maximal run of ASCII letters at the start |
| Placeholders.MatchLength | src/utils.rs:21 | a reported match is a placeholder (`{`, letters, `}`) at the start of the text |
| Placeholders.MatchLengthComplete | src/utils.rs:21 | a placeholder at the start of the text is always reported, with its length |
| Placeholders.Tokens | src/utils.rs:21-24 | the tokens `captures_iter` yields, leftmost first, each wrapped in braces; soundness, completeness and order are the lemmas below and `Templates.TokensOfTemplate` |
| Placeholders.InertNoMatch | src/utils.rs:21 | no placeholder starts at a `{` whose letter run ends inside the literal text at anything but `}`, whatever follows |
| Placeholders.TokensSound | src/utils.rs:21-24 | every token the scan yields is a placeholder |
| Placeholders.TokensComplete | src/utils.rs:21-24 | every placeholder anywhere in the line is among the tokens |
| Placeholders.TokensEmptyIff | src/utils.rs:21-24 | the scan finds no token exactly when the line contains no placeholder |
| Placeholders.Key | src/utils.rs:29 | a token's key wrapped in `{` and `}` is the token |
| Placeholders.KeyInside | src/utils.rs:29 | a token's key is the text between its braces |
| Json.Get | src/utils.rs:30 | defines serde_json's `get` with a string key: the field of an object, nothing for a missing field or any other value. Its contract only spells out the definition; what line 30 promises is stated by `Placeholders.Lookup` |
| Json.AsStr | src/utils.rs:30 | defines serde_json's `as_str`: the text of a JSON string, nothing for any other value. Its contract only spells out the definition; what line 30 promises is stated by `Placeholders.Lookup` |
| Placeholders.Lookup | src/utils.rs:30 | succeeds exactly when the record is an object whose field is a string, and returns that string; otherwise the error says whether the key was missing or not a string |
| Placeholders.Substitute | src/utils.rs:24-36 | defines the `for_each` fold: each token's lookup, then `replace` on the result updated so far; its properties are `SubstituteCons` and `SubstituteOkIff` |
| Placeholders.SubstituteCons | src/utils.rs:28-35 | one step of the loop: a failing lookup stops with its error; otherwise every occurrence of the token is replaced in the current result |
| Placeholders.SubstituteOkIff | src/utils.rs:24-36 | the replacements succeed exactly when every token's lookup does |
| Placeholders.Render | src/utils.rs:20-38 | defines `get_replaced_str`: the fold over the tokens found in the original line; its properties are proved in `RenderOkIff` and in `Templates` |
| Placeholders.RenderOkIff | src/utils.rs:24-36 | a line renders exactly when every token in it resolves to a string |
| Placeholders.RenderFailsOnUnresolved | src/utils.rs:30 | a placeholder anywhere in the line whose key is missing or not a string makes the line fail; nothing is skipped |
| Placeholders.RenderWithoutPlaceholder | src/utils.rs:21-37 | a line without placeholders comes back unchanged, whatever the record |
| Placeholders.LiteralBraces | src/utils.rs:21 | braces around text that holds no brace and is empty or holds a non-letter (`{}`, `{1}`, `{a b}`) come back literally, whatever the record |
| Placeholders.GetReplacedStr | src/utils.rs:20-38 | the imperative scan-and-replace loop computes exactly `Render` of the line |
| Templates.TokensSkip | src/utils.rs:21 | literal text in which no placeholder starts, such as `{}` or `{1}`, yields no token and does not disturb the tokens after it |
| Templates.TokensAfterToken | src/utils.rs:21-24 | a `{name}` token at the start is the first token, and the scan resumes after it |
| Templates.TokensOfTemplate | src/utils.rs:21-24 | the tokens of an assembled line are its holes' tokens, in order |
| Templates.NameToken | src/utils.rs:29 | a letter name's token is a placeholder whose key is the name |
| Templates.TokenMismatch | src/utils.rs:31 | two different names' tokens never match at the same place |
| Templates.OtherTokenKept | src/utils.rs:31 | replacing one name's token leaves a different name's token intact |
| Templates.InertNoToken | src/utils.rs:31 | no `{name}` token occurs starting inside literal text in which no placeholder starts |
| Templates.ReplaceInTemplate | src/utils.rs:31 | replacing a name's token fills exactly the holes with that name |
| Templates.FillNameKeepsShape | src/utils.rs:31 | filling one name with an inert value keeps the line well formed and resolvable and keeps the final text |
| Templates.FillNameRemovesName | src/utils.rs:31 | filling one name leaves only holes of other names, all of them holes of the line |
| Templates.SubstituteTemplate | src/utils.rs:24-36 | the fold over the names' tokens yields the filled text when every hole's name is covered and resolves to an inert value |
| Templates.RenderFillsTemplate | src/utils.rs:21-36 | a line rendered against a record that resolves every hole to an inert value (one holding no `{`, say) is the text with each hole replaced by its value and the rest kept, literal braces such as `{}` or `{1}` included |
| Templates.RenderTemplateFails | src/utils.rs:30 | a hole whose name has no string value makes the line fail |
| Templates.RenderOneHole | src/utils.rs:21-36 | text, one hole, text renders to text, value, text, when the two texts and the value are inert (so `before = "{"` is not covered; see `DoubleBraces`) |
| Templates.DoubleBraces | src/utils.rs:21-36 | `{{name}}` renders to `{`, the name's value and `}`, whatever the value: the inner `{name}` is the placeholder and the outer braces stay |
| Templates.LiteralBracesBesideHole | src/utils.rs:21-36 | in `{1} {name}` or `{} {name}`, the braces that do not form a placeholder come back literally while the hole is filled with its inert value |
| Templates.DanceExample | src/utils.rs:113-119 | `dance is {feeling}` with `feeling` = `fun` renders to `dance is fun` |
| Templates.InsertedTokenReplacedAgain | src/utils.rs:22-35 | when `{a}`'s value is `{b}`, the line `{a}{b}` renders to `b`'s value twice |
| Bodies.RenderAll | src/utils.rs:69-70 | renders the lines in order, stopping at the first failure; on success one rendered line per line |
| Bodies.Join | src/utils.rs:72-77 | defines the fold: each rendered line after a line feed; its properties are `JoinShape` and `JoinTerminated` |
| Bodies.Body | src/utils.rs:67-77 | defines one body: the template's lines rendered against one record, then joined; its properties are `BodyStartsWithFeed` and `RenderBody` |
| Bodies.RenderAllOkIff | src/utils.rs:69-70 | a template's lines render exactly when each line does |
| Bodies.RenderAllValues | src/utils.rs:69-70 | the rendered lines are each line's rendering, in order |
| Bodies.RenderAllFirstError | src/utils.rs:69-70 | a failure is the failure of the first line that fails |
| Bodies.JoinTerminated | src/utils.rs:72-77 | the fold puts a line feed before every rendered line, the first included |
| Bodies.JoinShape | src/utils.rs:72-77 | the join of any rendered lines is empty exactly when there are none, and otherwise starts with a line feed |
| Bodies.BodyStartsWithFeed | src/utils.rs:67-77 | every body is empty exactly when the template is, and otherwise starts with a line feed |
| Bodies.BodyReadsBack | src/utils.rs:68-77 | a body is empty exactly when no line was rendered, otherwise starts with a line feed, and its lines can be read back from it |
| Bodies.EmptyTemplateEmptyBody | src/utils.rs:68-77 | an empty template gives an empty body |
| Bodies.LinesOfTwo | src/utils.rs:69 | a two-line text is split at its line feed |
| Bodies.TwoLineBody | src/utils.rs:68-77 | a two-line template gives a feed, the first rendered line, a feed and the second |
| Bodies.GreetingBody | src/utils.rs:137-153 | the test's template with a `name` and a `feeling` renders to its two lines with those values put in, for any inert values |
| Bodies.GetBodyFormats | src/utils.rs:137-153 | two records give their two bodies, in order, for any inert values |
| Bodies.Bodies | src/utils.rs:64-80 | a successful `get_bodies` gives one body per record |
| Bodies.BodiesOkIff | src/utils.rs:65-79 | the bodies render exactly when every record's body does |
| Bodies.BodiesValues | src/utils.rs:65-79 | body `i` is the template rendered against record `i` |
| Bodies.BodiesFirstError | src/utils.rs:65-79 | a failure is the failure of the first record whose body fails |
| Bodies.ContinueStep | src/utils.rs:72-76 | one step of the fold appends a feed and the rendered line to the accumulator |
| Bodies.RenderBody | src/utils.rs:67-77 | the imperative fold over the lines computes exactly `Body` |
| Bodies.CollectStep | src/utils.rs:65-79 | one step of the collection appends one record's body |
| Bodies.GetBodies | src/utils.rs:64-80 | the imperative loop over the records computes exactly `Bodies` |
| Headers.GetHeaders | src/utils.rs:54-61 | one header per recipient, in order; header `i` has the given sender and subject and recipient `i` |
| Headers.HeadersKeepRecipients | src/utils.rs:122-134 | the recipients can be read back from the headers, and every header has the given sender and subject |
| Assembly.Compose | src/utils.rs:87-92 | the message for header `i` and body `i`: the header's sender, recipient and subject, and the body |
| Assembly.Emails | src/utils.rs:83-96 | one message per body |
| Assembly.EmailsPairByIndex | src/utils.rs:85-93 | message `i` has header `i`'s sender, recipient and subject and body `i` |
| Assembly.EmailsIgnoreSpareHeaders | src/utils.rs:85-86 | headers beyond the number of bodies play no part |
| Assembly.GenerateEmails | src/utils.rs:83-96 | the imperative loop computes `Emails`: exactly one message per body, with the fields of the header of the same index |
| Records.Header.Create | src/lib.rs:29-35 | stores sender, recipient and subject unchanged |
| Lib.EmailMessage.Create | src/lib.rs:57-59 | stores both paths unchanged |
| Lib.BuildEmails | src/lib.rs:77-85 | the build succeeds exactly when every body renders and there are no more records than recipients; it then gives one message per record; otherwise it fails with the render error or the missing header |
| Lib.BuildEmailsMessages | src/lib.rs:77-85 | message `i` is from the data's sender to recipient `i`, under the subject, with the template rendered against record `i` |
| Lib.BuildEmailsFirstFailure | src/lib.rs:84 | a record whose body fails makes the build fail, with the first such record's error |
| Lib.NoRecordsNoMessages | src/lib.rs:84-85 | without data records the build gives no messages |

## Left out

- Reading the files is not modelled: `get_json_data` and `get_email_contents` (src/utils.rs:42-51), and their calls in `build_emails` (src/lib.rs:74-75). The template's text and the parsed data are arguments of `Lib.BuildEmails`, so the `EmailMessage` paths are only stored.
- Lib.BuildEmails: takes the template text and the parsed data as arguments rather than an `EmailMessage`, because reading the files at its paths is I/O.
- Deserialising the data file with serde into `JsonData`/`JsonHeader` is not modelled: the data arrives already parsed. A malformed file would panic in `get_json_data`.
- JSON numbers are modelled as `real`. Rendering only ever asks whether a value is a string.
- Assembly.GenerateEmails: does not model lettre's `Message::builder`, which parses the sender and recipient as mailboxes and can panic on a malformed address or header. A message is a plain record of the four strings, and the header fields are copied unchanged. This is a foreign library.
- Assembly.GenerateEmails: its caller must supply at least as many headers as bodies, the demand `headers.get(i).unwrap()` makes. `Lib.BuildEmails` turns the violation into a `MissingHeader` error.
- The regex engine is not modelled. Only the recogniser for the one pattern `[{][a-zA-Z]+[}]` is, as a scan: at `{`, take the maximal run of ASCII letters; a non-empty run followed by `}` is a match.
- The `_ => String::from("")` arm at src/utils.rs:33 is not modelled: `caps.get(0)` always holds the whole match, so that arm never runs.
- Templates.RenderFillsTemplate: literal text must be inert whatever follows it. So a literal `{` directly before a hole (as in `{{name}}`), and a `{` or `{` plus letters at the very end of a line, are outside the theorem. `Templates.DoubleBraces` covers the doubled-brace shape separately. `Templates.RenderOneHole` has the same restriction.
- Text.Lines: models the current `str::lines`, which drops a carriage return only before a line feed. A final line without a feed keeps a trailing `\r`.
- Rust strings are UTF-8 bytes, and the model works on characters. All patterns involved are ASCII, so matching and replacing agree.
- Panic messages and the unwinding itself are not modelled. A panic is an error result carrying the key or index it failed on.
- The example program (examples/example.rs) and the `Debug` printing are not modelled; they only call the library and print.
