# Glossary generator, modelled in Dafny

The program reads a glossary file and writes one HTML page per term plus an
index page. A glossary file is a sequence of entries. Each entry has:

- a term line;
- a first definition line;
- further definition lines;
- a blank line that ends it.

The program works in four steps:

- It loads the file into a queue of terms, in file order, and a map from each
  term to its definition. The definition lines are concatenated with nothing in
  between.
- It builds the set of separator characters (space, tab, comma).
- It walks each definition run by run. A run is a maximal word or a maximal
  string of separators. A run that is a glossary term is wrapped in a link to
  that term's page.
- It takes each term from the front of the queue, writes the term's page and
  its index line, and puts the term back at the end.

The model covers each step:

| file | module | what it holds |
|---|---|---|
| `outcomes.dfy` | `Outcomes` | `Result` |
| `sequences.dfy` | `Sequences` | one shared fact about concatenation |
| `separators.dfy` | `Separators` | `generateElements` and the separator set |
| `scanner.dfy` | `Scanner` | `nextWordOrSeparator` and run decomposition |
| `rewriter.dfy` | `Rewriter` | the `definition2` loop of `supportingHTMLFiles`, as written and corrected |
| `loader.dfy` | `Loader` | `getGlossMap` |
| `index.dfy` | `Index` | the queue pass of `makeIndexHTML` |

Modelling choices:

- Strings are `seq<char>`. A Dafny `char` is a whole Unicode character, while
  Java's `length()` and `charAt` count UTF-16 code units, and a character above
  U+FFFF takes two of them. The two agree exactly on text in the Basic
  Multilingual Plane (`Scanner.Bmp`), as `Scanner.JavaLengthCounts` states.
  Offsets and lengths in the model count characters; the members whose results
  depend on the double advance are faithful on such text only (see
  "## Left out").
- The input file is the sequence of its lines.
- The library map is a Dafny `map`, the set a `set` and the queue a `seq`.
- Where the code can throw, the model returns a `Result` whose error says why:
  - `MissingLine`: a line was read past the end of the input.
  - `DuplicateTerm`: a term was added to the map a second time.
  - `IndexOutOfBounds`: `charAt` was called at an index outside the text.

Where the code and the program's written description differ, the model
follows the code:

- The last entry must also end with a blank line. Otherwise the inner read loop
  reads past the end of the input, so `GetGlossMap` fails with `MissingLine`.
- A separator string that is a key of the glossary is linked like a word.
  `Emit` asks only `run in m`.
- The index line leaves the link target unquoted:
  `<li><a href = T.html>T</a></li>`.
- The doc comment of `generateElements` says the set is replaced by the
  characters of the string. The code only adds to the set. So
  `GenerateElements` states a union with the set it is given. At the one call
  site the set starts empty, so the two readings agree there.

## Model

| member | source | states |
|---|---|---|
| Separators.GenerateElements | src/GlossaryProject.java:180-189 | the resulting set is the given set together with every character of the string, and nothing else |
| Separators.MakeSeparatorSet | src/GlossaryProject.java:108-113 | the separator set is exactly space, tab and comma, the distinct characters of `" \t, "` |
| Scanner.RunEndStops | src/GlossaryProject.java:234-247 | the run's end is the first character of the other kind, or the end of the text; every character before it is of the run's kind |
| Scanner.ScanIsMaximal | src/GlossaryProject.java:208-223 | the scanned run is the maximal run at the position: a slice of the text starting there, of one kind throughout, and ended by the other kind or by the end of the text |
| Scanner.ScanMeetsDocumentedContract | src/GlossaryProject.java:208-223 | the documented contract in its two cases: a word holds no separator and is followed by a separator or the end; a separator string holds only separators and is followed by a word character or the end |
| Scanner.ScanUnique | src/GlossaryProject.java:208-223 | the documented contract determines the result: any string meeting it is the scanner's run |
| Scanner.NextWordOrSeparator | src/GlossaryProject.java:226-251 | the scanner's two loops, with the separator loop also stopped at the end of the text, return the maximal non-empty run at the position |
| Scanner.ScanInsideRun | src/GlossaryProject.java:226-251 | a scan started inside a run returns the rest of that run, which is a fragment of a word when the run is a word |
| Scanner.RunsFlattenToSuffix | src/GlossaryProject.java:226-251 | scanning from an offset and advancing by each run's length covers the rest of the text, with no gap and no overlap |
| Scanner.RunsRebuildText | src/GlossaryProject.java:226-251 | round trip: the runs of a whole text, concatenated, give the text back |
| Scanner.RunsAlternate | src/GlossaryProject.java:226-251 | each run is all separators or all word characters, and neighbouring runs are of opposite kinds |
| Scanner.SeparatorLoopAsWritten | src/GlossaryProject.java:230-239 | the separator loop as written, with `index` a Java `int`: it either throws, or exits at a later index inside the text whose character is not a separator; it stays put only when the character in hand is no separator |
| Scanner.TrailingSeparatorsThrow | src/GlossaryProject.java:230-239 | when a separator run reaches the end of the text, the loop as written returns no run: the index climbs to the largest `int`, wraps negative, and `charAt` throws |
| Scanner.SingleSpaceThrows | src/GlossaryProject.java:230-239 | the smallest failing input: the text `" "` with a space as separator ends in the index exception |
| Scanner.SeparatorLoopAgreesInside | src/GlossaryProject.java:233-239 | when a separator run stops before the end of the text, the loop as written exits where the maximal run ends |
| Scanner.JavaLengthCounts | src/GlossaryProject.java:309-318 | `length()`, which sets and advances `position`, counts UTF-16 code units; it equals the model's character count if and only if no character lies above U+FFFF |
| Scanner.EmojiCountsTwice | src/GlossaryProject.java:309 | a character above U+FFFF, such as U+1F600, is two code units long and is not BMP text |
| Scanner.ScanAsWrittenCases | src/GlossaryProject.java:226-251 | the scanner as written throws exactly when it starts inside a separator run that reaches the end of the text; otherwise it returns the maximal run |
| Rewriter.RewriteFromEmitsRuns | src/GlossaryProject.java:315-334 | the single-advance rewriter outputs the scanner's runs in order: a run that is a key becomes a link, any other run appears verbatim |
| Rewriter.Rewrite | src/GlossaryProject.java:297 | the corrected rewriter passes every run of the definition through once. With no angle brackets in the definition, stripping the markup from its output gives the definition back. An empty definition gives an empty output |
| Rewriter.StripLink | src/GlossaryProject.java:317 | removing the tags from a link leaves exactly the linked run |
| Rewriter.StripEmit | src/GlossaryProject.java:316-333 | whichever branch appends a run, stripping the markup gives that run back |
| Rewriter.StripEmitAll | src/GlossaryProject.java:316-333 | stripping the markup from a list of emitted runs gives their concatenation |
| Rewriter.StripRewriteFrom | src/GlossaryProject.java:297 | the markup-strip identity from any offset: the rewritten suffix, stripped, is the suffix of the definition |
| Rewriter.EmitAllWithoutKeys | src/GlossaryProject.java:327-328 | runs that are not keys are appended unchanged |
| Rewriter.RewriteWithoutKeys | src/GlossaryProject.java:327-328 | when no run of the definition is a key, the corrected rewriter returns the definition itself |
| Rewriter.LoopRunsResume | src/GlossaryProject.java:315-334 | with the bounded scanner: once the run in hand is the one scanned at the loop's offset, the loop appends exactly the scanner's runs from that offset on |
| Rewriter.LoopRunsAfterFirst | src/GlossaryProject.java:305-334 | with the bounded scanner: after the first scan, and the offset set to its length, the loop appends the first run (unless it is the whole definition), then the runs from twice its length; lengths count characters, so this is the program's behaviour on BMP text |
| Rewriter.AsWrittenClosedForm | src/GlossaryProject.java:305-334 | with every scan taken by the bounded scanner, the loop's output is the first run's emission, then the single-advance rewriting from twice the first run's length; lengths count characters, so this is the program's behaviour on BMP text |
| Rewriter.RewriteAsWritten | src/GlossaryProject.java:305-334 | the same closed form, stated as the contract of the as-written rewriter over the bounded scanner; lengths count characters, so this is the program's behaviour on BMP text |
| Rewriter.LoopRunsCheckedTail | src/GlossaryProject.java:315-334 | with the program's own scanner, the loop from a run boundary throws exactly when it rescans before the end and the definition ends in a separator; otherwise it appends the scanner's runs |
| Rewriter.ProgramBodyCases | src/GlossaryProject.java:305-334 | the program throws exactly when a scan starts in a trailing separator run (the first scan of a one-run definition, or any loop scan once the loop resumes before the end) or the offset passes the largest `int`; otherwise its body is the as-written closed form; lengths count characters, so this is the program's behaviour on BMP text |
| Rewriter.SingleRunGivesEmptyBody | src/GlossaryProject.java:307-315 | a definition that is one run produces an empty body, because the loop never runs; the program returns that empty body for a word and throws for a separator string |
| Rewriter.StripAsWritten | src/GlossaryProject.java:305-334 | the stripped output of the as-written loop, and of every body the program returns, is the first run followed by the definition from twice the first run's length; the text in between is lost; lengths count characters, so this is the program's behaviour on BMP text |
| Rewriter.LoopBody | src/GlossaryProject.java:316-333 | one pass of the loop body, rescanning with the bounded scanner: it appends the link or the run, advances by the run's length, and leaves in hand the run the loop appends next |
| Rewriter.SupportingBody | src/GlossaryProject.java:305-334 | the loop with its `position` variable and the bounded scanner method computes the as-written rewriter's output, which is the program's body wherever the program does not throw; lengths count characters, so this is the program's behaviour on BMP text |
| Rewriter.TrailingSpaceThrows | src/GlossaryProject.java:321-331 | worked example: for "a b " the loop's scan at offset 3 starts in the trailing space, so the program throws |
| Rewriter.SkippedTrailingSpaceReturns | src/GlossaryProject.java:309-318 | worked example: for "ab " the double advance skips the trailing space, so the program returns "ab" |
| Rewriter.ExampleTail | src/GlossaryProject.java:315-334 | worked example: rewriting "a short word" from offset 2 links "word" and keeps the rest |
| Rewriter.RewriteExample | src/GlossaryProject.java:297 | worked example: the corrected rewriter links both terms and keeps both spaces |
| Rewriter.AsWrittenExample | src/GlossaryProject.java:309-318 | worked example: the as-written loop drops the space after the first term |
| Rewriter.AsWrittenLosesText | src/GlossaryProject.java:309-318 | worked example: stripping the as-written output gives one character fewer than the definition, so not the definition |
| Rewriter.AsWrittenLinksFragment | src/GlossaryProject.java:309-321 | after the double advance a scan can start inside a word: in "ab cd" the fragment "d" is linked as a term |
| Loader.ReadMore | src/GlossaryProject.java:61-69 | the inner read loop consumes the further lines through the blank line and returns them, all non-blank; it fails with a missing line exactly when no blank line follows |
| Loader.ReadBlock | src/GlossaryProject.java:58-69 | one entry is the term line, the first definition line (whatever it holds) and the further lines through the blank line; it fails exactly when the second line or the blank line is missing |
| Loader.LoadFrom | src/GlossaryProject.java:56-73 | the read loop keeps each term once in the queue and keeps the map's keys equal to the queue's terms; the queue only grows at its end |
| Loader.GetGlossMap | src/GlossaryProject.java:46-76 | the loaded queue has no repeated term, and its terms are exactly the map's keys; an empty file gives an empty queue and map |
| Loader.ReadMoreFormat | src/GlossaryProject.java:61-69 | the inner loop reads back exactly the non-blank lines written before a blank line |
| Loader.ParseFormat | src/GlossaryProject.java:56-73 | round trip: the entries written as lines are read back as the same entries |
| Loader.FormatParse | src/GlossaryProject.java:56-73 | round trip: whatever is read as entries is exactly the lines of those entries |
| Loader.LoadFromBlocks | src/GlossaryProject.java:56-73 | the read loop succeeds exactly when the lines split into entries whose terms are new and distinct; the queue then gains their terms in file order and the map their definitions |
| Loader.DefsFromLookup | src/GlossaryProject.java:70-71 | each new term maps to its own joined lines, earlier keys keep their values, and no other key appears |
| Loader.LoadFormat | src/GlossaryProject.java:46-76 | entries with distinct terms load to the terms in file order, each mapped to its concatenated definition lines |
| Loader.LoadParses | src/GlossaryProject.java:46-76 | loading succeeds exactly when the file splits into entries with distinct terms; the result is then read off those entries |
| Loader.TwoLineDefinition | src/GlossaryProject.java:58-71 | a two-line definition is joined with nothing in between, and its first line is taken unconditionally |
| Index.IndexEntryNamesPage | src/GlossaryProject.java:157 | the index line links to the term followed by ".html", the name of the page written for it |
| Index.IndexEntryInjective | src/GlossaryProject.java:157 | different terms get different index lines |
| Index.PageBodyCases | src/GlossaryProject.java:146-155 | a term's page call throws exactly when its definition is empty (the first scan's `charAt(0)`) or the rewriting loop throws on it; otherwise the page body is the as-written rewriting of the definition; lengths count characters, so this is the program's behaviour on BMP text |
| Index.IndexPass | src/GlossaryProject.java:135-161 | for any page call: the pass writes pages and index lines in queue order. It succeeds exactly when every page call returns, and then writes one of each per term and leaves the queue in its original order. Otherwise it stops at the first term whose page call throws, which is left out of the queue, with the lines for the terms before it written |
| Index.MakeIndexEntries | src/GlossaryProject.java:135-161 | the same pass with the program's page call: each page body is the rewriting of the term's definition from the map, and the pass stops at the first term whose definition is empty or makes the rewriting throw; lengths count characters, so this is the program's behaviour on BMP text |

## Left out

- File and console I/O is not modelled. This covers `SimpleReader`, `SimpleWriter`, the prompts in `main` (353-401) and the file and folder names. The input is given as its lines; the written text is returned.
- The fixed page and index boilerplate (123-131, 162-164, 264-271, 338-342) is not modelled. It carries no logic.
- The outer `for i` loop of `makeIndexHTML` (117-119) is not modelled. It writes the same index file once per term, each time from the same rotated queue.
- The case-insensitive sort of the queue in `main` (391) is not modelled. Its ordering belongs to the Java library.
- The internals of the `Map1L`, `Set1L` and `Queue1L` components are not modelled. Only the preconditions the program relies on appear: a key added twice, and a value looked up for a key.
- The `supportingHTMLFiles` call inside the index pass (155) appears as a `Page` record of the term and the page body, or as the exception the call throws. The body is `Rewriter.ProgramBody`'s result for the definition, and an empty definition throws.
- HTML escaping is not modelled, because the program does none. The markup-strip identity therefore assumes a definition without angle brackets.
- The rewriter members require a non-empty definition, as the program documents (291). The index pass models what happens on an empty one: `charAt(0)` throws, so `Index.PageBody` returns the exception.
- Strings longer than the largest Java `int` are not modelled. The members that model `int` arithmetic require the text to be at most that long, as every Java string is.
- AsWrittenClosedForm: describes the loop as written composed with the bounded scanner. It gives an output also where the program throws; `Rewriter.ProgramBodyCases` states exactly where that happens.
- RewriteAsWritten: the same gap as AsWrittenClosedForm. The program's own result, body or exception, is `Rewriter.ProgramBody`.
- LoopRunsResume: describes the loop with the bounded scanner. Where the definition ends in a separator, the program's rescan throws instead; `Rewriter.LoopRunsCheckedTail` states exactly where.
- LoopRunsAfterFirst: describes the loop with the bounded scanner, as LoopRunsResume does. `Rewriter.ProgramBodyCases` states where the program throws instead.
- LoopBody: rescans with the bounded scanner method, so it hands back a run also where the program's rescan at 321/331 throws. `Rewriter.LoopRunsCheckedTail` states where that happens.
- SupportingBody: the method calls the bounded scanner, so it returns a body also where the program throws. Its second ensures ties it to the program only where `Rewriter.ThrowsAsWritten` fails.
- Loader.LoadFrom: on failure only the error is returned. The queue the program has already extended before the failing read is not.
- LoopRunsAfterFirst: "twice its length" counts characters. The program adds `length()`, which counts UTF-16 code units, so the statement holds for it only on text with no character above U+FFFF (`Scanner.Bmp`).
- AsWrittenClosedForm: resumes at twice the first run's length in characters; the program resumes at twice its length in code units. The two agree only on text with no character above U+FFFF. On `"\U{1F600} abc"` the program resumes at code unit 4 and outputs `"\U{1F600}bc"`, where the model gives `"\U{1F600}abc"`.
- RewriteAsWritten: the same character-count gap as AsWrittenClosedForm; faithful only on BMP text.
- ProgramBodyCases: `Rewriter.ThrowsAsWritten` compares the first run's length in characters. The program compares code units, so the throw condition is exact only on text with no character above U+FFFF. For `"\U{1F600}  "` (length 4 in Java) the program advances to 2, then 4, never rescans and returns `"\U{1F600}"`, where the model says it throws.
- StripAsWritten: the lost span from one to two first-run lengths is measured in characters, the program's in code units; the identity holds for the program only on BMP text.
- SupportingBody: its offsets count characters, so its body is the program's only on BMP text. Where a double advance lands inside a surrogate pair, the program emits half a character, which a Dafny string cannot hold.
- Index.PageBodyCases: its throw condition is `Rewriter.ThrowsAsWritten`, so it is exact only on definitions with no character above U+FFFF; `"\U{1F600}  "` is the counterexample.
- Index.MakeIndexEntries: through `Index.PageBody` it stops at a term whose definition is `"\U{1F600}  "`, where the program writes the page and goes on. It is faithful when every definition is BMP text.
- Index.MakeIndexEntries: requires every queued term to be a key of the map. This is the precondition of the map lookup (146), which `Loader.GetGlossMap` guarantees. On an exception it returns what was written before it; the partly written page file of the failing term is not modelled.

## Findings

| source | as written | input that shows it | evidently intended | confidence | as-written member | corrected member |
|---|---|---|---|---|---|---|
| src/GlossaryProject.java:233-239 | the separator loop tests only `separators.contains(tmp)`. Past the end of the text `tmp` keeps the last separator, so `index` climbs to the largest `int` and wraps negative. `charAt` then throws after about 2^31 iterations, and no run is returned | the text `" "` with the separator set `{' '}`. For a definition the program reaches such a scan exactly when the definition ends in a separator and either is one run or has its first run shorter than half of it (lengths in UTF-16 code units; for text with no character above U+FFFF that is the character count the model uses), as in "a b "; "ab " returns, because the double advance skips the trailing space | stop at the end of the text, as the word loop does | not executed | Scanner.SeparatorLoopAsWritten, Scanner.SingleSpaceThrows, Rewriter.ProgramBodyCases, Rewriter.TrailingSpaceThrows | Scanner.NextWordOrSeparator |
| src/GlossaryProject.java:309-318 | `position` is set to the first run's length before the loop, and the loop adds the same length again, so the text between one and two run lengths is skipped | the definition "a short word", with "a" and "word" as terms and a space as separator: the space after "a" is lost | start the loop at offset 0 and advance once per run | not executed | Rewriter.RewriteAsWritten, Rewriter.AsWrittenLosesText | Rewriter.Rewrite |
