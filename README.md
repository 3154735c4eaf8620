# online-compile: a Dafny model of job files, runners and review formatting

This project models the deterministic core of the online-compile system.

The backend has three pieces:

- `generateFile` writes a submitted source to the codes directory. A Java job always gets the file `Main.java`. Any other job gets `<jobId>.<language>`.
- `executeCode` recovers the job id from that path and builds one shell command line for C, C++, Java or Python. It refuses every other language before anything runs. It settles its promise from the `exec` callback.
- `executeJava` is the second runner. It builds an unquoted `javac … && java -cp …` command and rejects on any stderr output.

The frontend has four pieces of review-text processing:

- `cleanMarkdownText` strips markdown.
- `extractCodeBlocks` scans for ```` ``` ```` fences with a global regular expression.
- `formatAiReview` splits the review at numbered markers into coloured sections.
- The render loop cuts each section's content into prose, code block and trailing prose.

The model states these in Dafny:

- Paths follow the POSIX behaviour of Node's `path` module, including the normalisation `path.join` applies (`NodePath`).
- The JavaScript string operations the core uses get their ECMAScript meaning (`JsText`). This covers `\s`, `\d`, `\w`, `.`, `trim`, `split`, `slice`, `parseInt` on digits, and the sign-keeping `%`.
- Command lines are a small structure of simple commands joined by `&&` and `||` (`ShellCommand`). The structure renders to exactly the runner's text. It runs in the order section 2.9.3 of the POSIX Shell Command Language gives an AND-OR list.
- The file store is a class holding a map from path to contents.
- The `while` loop of `extractCodeBlocks`, the `forEach` of `formatAiReview` and the segmentation `forEach` are methods with loop invariants. Each is proved equal to a recursive specification function, and the properties are proved about those functions.

Behaviour kept exactly as the code has it:

- `split(/(?=\d+\.\s)/)` also cuts inside a multi-digit marker. `"12. x"` yields a dropped piece `"1"` and a section numbered 2 (`AiReview.SplitInsideNumber`).
- A numbered piece that does not start at a cut, such as the whole text `"12.x"` (no blank after the dot, so no cut), keeps its full number 12 (`AiReview.NoCutWithoutBlank`). Sections have one-digit numbers only when they were cut at a marker (`AiReview.LaterSectionsHaveOneDigit`) or when the text itself opens with a marker (`AiReview.AllSectionsHaveOneDigit`).
- The colour index `(n - 1) % 2` is `-1` for a section numbered 0. `colors[-1]` is `undefined`, modelled as no colour (`AiReview.ColorsAlternate`).
- A tenth numbered item reaches that case: `"10. x"` splits into `"1"` and `"0. x"`, so its one section is numbered 0 and has no colour (`AiReview.TenthItemHasNoColour`). The panel then reads `section.color.name` (frontend/src/App.jsx:555), which throws on `undefined`.
- `path.join` normalises, and the language goes into the file name unchecked. A language `/../<tail>` drops the job id from the path, so two jobs write one file (`JobFiles.ClimbingJobsCollide`). With `/../../<f>` the file lands outside the codes directory (`JobFiles.ClimbingLanguageLeavesCodes`).
- `generateFile` validates no language: the file is written even when `executeCode` then refuses the language (`Lifecycle.WriteThenExecute`).

## Model

| member | source | states |
|---|---|---|
| JsText.SpacesEnd | frontend/src/App.jsx:44 | a greedy `\s*` from `i` stops at the first non-space or the end, and everything it passes is white space |
| JsText.DigitsEnd | frontend/src/App.jsx:46 | a greedy `\d*` from `i` stops at the first non-digit or the end, and everything it passes is a digit |
| JsText.DigitsEndInside | frontend/src/App.jsx:73 | starting inside a run of digits does not move the end of the run |
| JsText.Trim | frontend/src/App.jsx:47 | `trim` gives the empty string exactly for blank input, and otherwise neither starts nor ends with white space |
| JsText.TrimIsInnerSlice | frontend/src/App.jsx:47 | the input of `trim` is its result framed by a leading and a trailing run of white space |
| JsText.Slice | frontend/src/App.jsx:577 | `slice` is the ordinary slice for in-range bounds and empty when the start is past the end or the length |
| JsText.SplitOn | backend/executeCode.js:13 | `split('.')` gives at least one piece, no piece holds the separator, the pieces joined with it give the input back, and the first piece is the prefix before the first separator |
| JsText.SplitOnHead | backend/executeCode.js:13 | for `x` without the separator, the first piece of `x . y` is `x` |
| JsText.SplitOnAbsent | backend/executeCode.js:13 | a string without the separator splits into itself alone |
| JsText.DecimalValue | frontend/src/App.jsx:86 | `parseInt` of a single digit is below 10 |
| JsText.JsRem | frontend/src/App.jsx:88 | `%` keeps the sign of the dividend: non-negative and below the divisor for a non-negative dividend, non-positive and above minus the divisor for a non-positive one |
| NodePath.Basename | backend/executeCode.js:13 | the base name holds no separator |
| NodePath.Normalize | backend/generateFile.js:14 | `path.normalize` never gives the empty path |
| NodePath.NormalizeFileName | backend/generateFile.js:14 | a single proper segment is its own normal form |
| NodePath.Join | backend/generateFile.js:14 | `path.join` never gives the empty path |
| NodePath.JoinOntoDirectory | backend/generateFile.js:14 | joining a proper segment onto a normalised directory adds exactly one separator and the segment |
| NodePath.ClimbOutOfDirectory | backend/generateFile.js:14 | a `..` segment in the joined name cancels the directory's last segment |
| NodePath.Dirname | backend/executeJava.js:13 | the directory part is never empty, and is `.` or a prefix of the path |
| NodePath.DirnameOfChild | backend/executeJava.js:13 | the directory part of `dir/name` is `dir` |
| NodePath.BasenameOfJoin | backend/generateFile.js:14 | the base name of a directory joined with a file name is that file name |
| NodePath.DirnameOfJoin | backend/executeJava.js:13 | the directory part of a directory joined with a file name is that directory |
| JobFiles.Extension | backend/generateFile.js:11 | the extension equals the language string in every branch of the choice |
| JobFiles.FileName | backend/generateFile.js:13 | the file name ends with a dot followed by the language |
| JobFiles.FileNameIsSegment | backend/generateFile.js:13 | with a job id and a language free of separators, the file name is one proper path segment |
| JobFiles.SourcePath | backend/generateFile.js:13-14 | when the file name is one proper segment, it is the base name of the path written to |
| JobFiles.JavaFileNameIsFixed | backend/generateFile.js:13 | a Java job's file name is `Main.java` whatever its job id |
| JobFiles.OtherFileNameIsJobId | backend/generateFile.js:13 | any other job's file name is the job id, a dot and the language |
| JobFiles.JavaJobsShareOnePath | backend/generateFile.js:13-14 | two Java jobs get the identical path, whatever their job ids |
| JobFiles.FileNameKeepsJobsApart | backend/generateFile.js:13 | outside Java, distinct job ids give distinct file names |
| JobFiles.JoinKeepsNamesApart | backend/generateFile.js:14 | joining one directory with distinct proper segments gives distinct paths |
| JobFiles.DistinctJobsGetDistinctPaths | backend/generateFile.js:13-14 | outside Java, and for a language without a separator, distinct job ids give distinct paths |
| JobFiles.ClimbingLanguage | backend/generateFile.js:13-14 | for a language `/../<tail>` the path is the codes directory joined with `<tail>`, without the job id |
| JobFiles.ClimbingJobsCollide | backend/generateFile.js:13-14 | for such a language two different jobs get one path |
| JobFiles.ClimbingLanguageLeavesCodes | backend/generateFile.js:13-14 | for a language `/../../<f>` the path is `<f>` in the parent of the codes directory |
| JobFiles.FileStore.constructor | backend/generateFile.js:5 | the store starts with the given codes directory and files |
| JobFiles.FileStore.GenerateFile | backend/generateFile.js:10-17 | for any language, the returned path is the codes directory joined with the file name, the store maps that path to the code, and every other entry is unchanged |
| ShellCommand.Steps | backend/executeCode.js:32 | an AND-OR list has at least one simple command |
| ShellCommand.Render | backend/executeCode.js:32 | a list renders as the rendering of its front, then the connector's text, then the last command |
| ShellCommand.Run | backend/executeCode.js:32 | an AND-OR list runs its first command, then commands at increasing positions within the list, and its status is that of the last command run |
| ShellCommand.StepsOfThree | backend/executeCode.js:32 | a list of three has its commands in written order |
| ShellCommand.RunAndList | backend/executeCode.js:32 | in `a && b && c` each command runs only when every command before it succeeded |
| ShellCommand.RunOrList | backend/executeCode.js:44 | in an OR list of two commands the second runs exactly when the first failed |
| CodeRunner.JobIdOf | backend/executeCode.js:13 | the job id holds no dot, is a prefix of the base name, and when shorter is followed there by a dot |
| CodeRunner.CommandText | backend/executeCode.js:22-48 | a command line exists exactly for `cpp`, `c`, `java` and `py` |
| CodeRunner.Plan | backend/executeCode.js:22-48 | a structure exists exactly for the supported languages; its last command reads the quoted input file on stdin |
| CodeRunner.BinaryStepRenders | backend/executeCode.js:27-29 | the binary runs as `.\"<file>"` on Windows and `./<file>` elsewhere, with the quoted input path on stdin |
| CodeRunner.CompileStepRenders | backend/executeCode.js:32 | the compile step renders as the compiler, the quoted source, `-o` and the quoted binary path |
| CodeRunner.CompileAndRunRenders | backend/executeCode.js:22-32 | the C/C++ structure renders to exactly the C/C++ command line |
| CodeRunner.JavaRenders | backend/executeCode.js:34-40 | the Java structure renders to exactly the Java command line |
| CodeRunner.PythonRenders | backend/executeCode.js:42-44 | the Python structure renders to exactly the Python command line |
| CodeRunner.PlanRendersAsCommandText | backend/executeCode.js:22-48 | a structure and a command line exist exactly for `cpp`, `c`, `java` and `py`, and the structure renders to the command line |
| CodeRunner.SettleReply | backend/executeCode.js:50-59 | the promise resolves exactly when there is no error, with stdout whatever stderr holds, and otherwise rejects with the error's message |
| CodeRunner.ExecuteCode | backend/executeCode.js:12-61 | an unsupported language rejects with "Unsupported language" and hands nothing to `exec`; a supported one hands `exec` exactly its command line, rejects with the error's message on an error, and otherwise resolves with stdout whatever stderr holds |
| CodeRunner.CompileAndRunSteps | backend/executeCode.js:22-32 | the C/C++ list is compile, `cd` to the outputs directory, then the binary run with the quoted input on stdin |
| CodeRunner.CompilerAndBinary | backend/executeCode.js:23-25 | the compiler is `g++` exactly for `cpp` and `gcc` exactly for `c`, and it writes the binary named after the job id (`.exe` on Windows) into the outputs directory |
| CodeRunner.CompiledRunFollowsCompile | backend/executeCode.js:32 | the binary runs exactly when the compiler and the `cd` succeeded, only the compiler runs when it fails, and the command succeeds exactly when all three do |
| CodeRunner.JavaRunFollowsCompile | backend/executeCode.js:34-40 | the Java list is `cd` to the source directory, `javac` on the quoted file, then `java Main` on the quoted input; `java` runs exactly when the first two succeeded |
| CodeRunner.PythonFallsBack | backend/executeCode.js:42-44 | Python has no compile step; `python` runs exactly when `python3` failed, and the command succeeds when either did |
| CodeRunner.PathsAreQuoted | backend/executeCode.js:19-20 | every stdin redirect reads the quoted input path, and some command takes the quoted source path |
| JavaRunner.PlanWithRenders | backend/executeJava.js:17 | the structure renders to exactly `javac <file> && java -cp <dir> <class> < <input>`, paths unquoted |
| JavaRunner.ClassName | backend/executeJava.js:11-12 | the class name holds no dot, is a prefix of the base name, and when shorter is followed there by a dot |
| JavaRunner.Classpath | backend/executeJava.js:13 | the classpath is never empty, and is `.` or a prefix of the file path |
| JavaRunner.CommandText | backend/executeJava.js:17 | the line handed to `exec` is the rendering of the structure |
| JavaRunner.SettleReply | backend/executeJava.js:19-25 | an error rejects with the whole error object and stderr; no error but stderr rejects with the stderr; it resolves with stdout exactly when there is neither |
| JavaRunner.PlanWithRuns | backend/executeJava.js:17 | `java` runs exactly when `javac` succeeded |
| JavaRunner.ExecuteJava | backend/executeJava.js:10-29 | exactly one command line goes to `exec`; an error rejects with the error and stderr; no error but stderr rejects with the stderr; otherwise it resolves with stdout, and it resolves exactly when there was neither |
| JavaRunner.CompileThenRunClass | backend/executeJava.js:11-17 | the class name is the base name's prefix before its first dot, the classpath is the directory part, and `java` runs only after `javac` succeeded |
| Lifecycle.JobIdRoundTrip | backend/executeCode.js:13 | outside Java, for a language without a path separator (every supported language) and a job id that is non-empty with no dot and no separator (every UUID), the job id read back from the generated path is the one it was generated with |
| Lifecycle.JavaJobsRunClassMain | backend/generateFile.js:13 | a generated Java file yields the class name and job id `Main` in both runners |
| Lifecycle.DistinctJobsGetDistinctBinaries | backend/executeCode.js:24-25 | C/C++ jobs with distinct ids compile to distinct binaries |
| Lifecycle.JavaRunnerIsStricter | backend/executeJava.js:18-26 | the two runners agree whenever `executeJava` resolves, and they differ exactly when there is no error but stderr is not empty |
| Lifecycle.TwoJavaJobs | backend/generateFile.js:13-15 | two Java jobs in a row get the same path, and the second source replaces the first |
| Lifecycle.WriteThenExecute | backend/generateFile.js:10-17 | a job's source is written even when `executeCode` then refuses its language without running anything |
| Markdown.CloseFrom | frontend/src/App.jsx:39 | the lazy `(.*?)` stops at the nearest closing delimiter with no line terminator before it; with none, every later delimiter lies past a line terminator |
| Markdown.StripDelimited | frontend/src/App.jsx:39-43 | removing delimiter pairs never lengthens the text |
| Markdown.CloseFromIsNearest | frontend/src/App.jsx:39-43 | the closing delimiter found is the nearest on the same line; when none is found, every later delimiter lies past a line terminator |
| Markdown.DelimitedDeletesOnly | frontend/src/App.jsx:39-43 | the result is the input with characters deleted: a subsequence of it, in the input's order |
| Markdown.DelimitedRunReplaced | frontend/src/App.jsx:39-43 | a delimiter with its nearest repetition on the same line is replaced by the text between the two |
| Markdown.DelimitedPrefixKept | frontend/src/App.jsx:39-43 | text in which the delimiter's first character does not appear is copied as it is |
| Markdown.StripDelimitedKeepsPlainText | frontend/src/App.jsx:39-43 | text without the delimiter's first character is left as it is |
| Markdown.HashesEnd | frontend/src/App.jsx:44 | `#{1,6}` takes at least one and at most six hashes |
| Markdown.StripHeadings | frontend/src/App.jsx:44 | after the heading replacement no `#` remains |
| Markdown.HeadingsDeleteOnly | frontend/src/App.jsx:44 | the result is the input with characters deleted: a subsequence of it, in the input's order |
| Markdown.HeadingPrefixKept | frontend/src/App.jsx:44 | text without a hash is copied as it is |
| Markdown.HeadingRunRemoved | frontend/src/App.jsx:44 | a run of hashes of any length goes with the blanks after it, taken six at a time |
| Markdown.MarkerEnd | frontend/src/App.jsx:45-46 | a marker found ends after the position it starts at and within the text |
| Markdown.MarkerEndShape | frontend/src/App.jsx:45-46 | a marker found is optional blanks, a bullet or a digit run and a dot, then at least one blank, each run taken greedily |
| Markdown.BulletMarkerFound | frontend/src/App.jsx:45 | whenever `\s*[-*+]\s+` can match, the bullet marker is found and ends after the greedy blanks |
| Markdown.NumberedMarkerFound | frontend/src/App.jsx:46 | whenever `\s*\d+\.\s+` can match, the numbered marker is found and ends after the greedy blanks |
| Markdown.StripMarkers | frontend/src/App.jsx:45-46 | removing list markers never lengthens the text |
| Markdown.MarkersDeleteOnly | frontend/src/App.jsx:45-46 | the result is the input with characters deleted: a subsequence of it, in the input's order |
| Markdown.MarkerRemoved | frontend/src/App.jsx:45-46 | a marker at a line start goes with the blanks around it |
| Markdown.MarkersPrefixKept | frontend/src/App.jsx:45-46 | text with no marker at a line start is copied as it is |
| Markdown.Stripped | frontend/src/App.jsx:39-46 | the replacement chain leaves no `#` |
| Markdown.StrippedDeletesOnly | frontend/src/App.jsx:39-46 | the whole replacement chain gives a subsequence of the input |
| Markdown.CleanMarkdownText | frontend/src/App.jsx:35-48 | absent or empty text gives the empty string; otherwise the result has no `#`, no surrounding white space, and is a subsequence of the input |
| Markdown.TrimDeletesOnly | frontend/src/App.jsx:47 | the result of `trim` is a subsequence of its input |
| Markdown.PlainTextPassesThrough | frontend/src/App.jsx:38-47 | text without `*`, `_`, `` ` ``, `#` and line-start list markers comes out as its `trim` |
| Markdown.BoldDelimitersRemoved | frontend/src/App.jsx:39 | `"**a**"` cleans to `"a"` |
| Markdown.BulletMarkerRemoved | frontend/src/App.jsx:45 | `"- a"` cleans to `"a"` |
| CodeFences.WordEnd | frontend/src/App.jsx:52 | `[\w]*` from `i` stops at the first non-word character or the end |
| CodeFences.BodyStart | frontend/src/App.jsx:52 | the body starts after the opening fence, the language tag and at most one newline |
| CodeFences.NextFence | frontend/src/App.jsx:52 | the lazy `[\s\S]*?` stops at the nearest fence at or after the body start, or there is none |
| CodeFences.BlockAt | frontend/src/App.jsx:57-61 | a block starts at its match and ends at least six characters later, within the text |
| CodeFences.BlockAtMatchedSlice | frontend/src/App.jsx:57-61 | `endIndex` is `startIndex` plus the match's length, the match is the text between them, and it opens and closes with a fence |
| CodeFences.BlockAtTrimmedBody | frontend/src/App.jsx:52-59 | `code` is the trimmed text from the body start to the nearest closing fence |
| CodeFences.BlockAtWellFormed | frontend/src/App.jsx:52-61 | a block is both a matched slice and a trimmed body |
| CodeFences.FirstMatch | frontend/src/App.jsx:56 | the first index at or after `lastIndex` where the pattern matches, or no match at all |
| CodeFences.Exec | frontend/src/App.jsx:56 | `exec` returns the block of the leftmost match at or after `lastIndex`, or null when the pattern matches nowhere there |
| CodeFences.CodeBlocksFrom | frontend/src/App.jsx:56-63 | every block collected lies within the text from where the scan began |
| CodeFences.BlockFound | frontend/src/App.jsx:56-62 | each collected block is the block of a match at its start index |
| CodeFences.ScanSkipsNoMatch | frontend/src/App.jsx:56 | each block starts no earlier than its scan began, and no match begins in between |
| CodeFences.BlockFollowsPrevious | frontend/src/App.jsx:56-61 | each block starts no earlier than the previous one ends |
| CodeFences.CodeBlocksFromStep | frontend/src/App.jsx:56-63 | a successful `exec` adds its block and moves `lastIndex` forward to the block's end |
| CodeFences.NoMatchAfterLastBlock | frontend/src/App.jsx:56 | after the last block the pattern matches nowhere |
| CodeFences.CodeBlocksAreWellFormed | frontend/src/App.jsx:51-66 | every extracted block is well formed |
| CodeFences.CodeBlocksInOrder | frontend/src/App.jsx:56-61 | the blocks are non-empty and each starts no earlier than the previous ends |
| CodeFences.BlocksAreOrdered | frontend/src/App.jsx:51-66 | any two blocks do not overlap, and their start indices strictly increase |
| CodeFences.CodeBlocks | frontend/src/App.jsx:51-66 | there are no blocks exactly when `exec` from index 0 finds no match, and otherwise the first block is that match |
| CodeFences.NoFenceNoBlocks | frontend/src/App.jsx:52 | a text without three consecutive backticks has no blocks |
| CodeFences.ExtractCodeBlocks | frontend/src/App.jsx:51-66 | the `exec` loop returns exactly the blocks of the specification |
| AiReview.MarkerInsideRun | frontend/src/App.jsx:73 | a marker that starts inside a digit run is also one a digit later |
| AiReview.MarkerIsDigitsDotSpace | frontend/src/App.jsx:73 | the lookahead succeeds at an index exactly when a run of digits from there is followed by a dot and a `\s` character |
| AiReview.CutsFrom | frontend/src/App.jsx:73 | the cut indices are exactly the lookahead's successes, in increasing order |
| AiReview.Bounds | frontend/src/App.jsx:73 | `split` never cuts at index 0, cuts at every later index where the lookahead succeeds, and at no other index |
| AiReview.Pieces | frontend/src/App.jsx:73 | the split gives at least one piece, one per pair of consecutive bounds |
| AiReview.PieceAt | frontend/src/App.jsx:73 | each piece is the non-empty text between two consecutive bounds |
| AiReview.PiecesCoverText | frontend/src/App.jsx:73 | the pieces put back together give the text |
| AiReview.LaterPiecesOpenWithDigit | frontend/src/App.jsx:73 | every piece after the first starts at a marker, so with a digit |
| AiReview.NextCut | frontend/src/App.jsx:73 | if the lookahead also succeeds one index after a cut, the next cut is there |
| AiReview.MatchQuestion | frontend/src/App.jsx:84-86 | the match succeeds exactly when the piece opens with digits and a dot; a one-digit number is below 10 |
| AiReview.QuestionContent | frontend/src/App.jsx:84-87 | the content is what follows the dot after the blanks, and it does not start with a blank |
| AiReview.ColorFor | frontend/src/App.jsx:88 | a section has no colour exactly when its number is 0 |
| AiReview.ColorsAlternate | frontend/src/App.jsx:88 | odd numbers get purple, even numbers from 2 get emerald, and 0 gets no colour |
| AiReview.SectionOf | frontend/src/App.jsx:82-99 | a piece gives a section exactly when it is not blank and numbered, carrying the number, content, colour, its content's blocks, and `hasCodeBlocks` exactly when there are blocks |
| AiReview.NumberedSections | frontend/src/App.jsx:81-101 | the loop collects at most one section per piece |
| AiReview.NumberedSectionsStep | frontend/src/App.jsx:81-101 | one more piece appends its section, if any, at the end |
| AiReview.SectionsComeFromPieces | frontend/src/App.jsx:81-101 | every collected section is the section of some piece |
| AiReview.ReviewSections | frontend/src/App.jsx:69-116 | null exactly for absent or empty text; otherwise at least one section; without numbered sections, the one fallback section numbered 1, purple, holding the whole text and flagged as optimised code |
| AiReview.ReviewSectionFromPiece | frontend/src/App.jsx:73-101 | unless the fallback was taken, every section comes from one piece of the text |
| AiReview.Fallback | frontend/src/App.jsx:103-113 | the fallback section is numbered 1, takes the first colour and the whole text with its blocks, and is flagged as optimised code |
| AiReview.PieceNumberIsOneDigit | frontend/src/App.jsx:73-86 | a numbered piece cut at a marker has a one-digit number |
| AiReview.LaterSectionsHaveOneDigit | frontend/src/App.jsx:73-86 | sections from every piece after the first have one-digit numbers |
| AiReview.AllSectionsHaveOneDigit | frontend/src/App.jsx:73-86 | when the text opens with a marker, every section has a one-digit number |
| AiReview.PiecesOfTwelveDotSpace | frontend/src/App.jsx:73 | `"12. x"` splits into `"1"` and `"2. x"` |
| AiReview.SectionOfTwoDotSpace | frontend/src/App.jsx:84-86 | `"1"` gives no section and `"2. x"` gives section 2 with content `"x"` |
| AiReview.SplitInsideNumber | frontend/src/App.jsx:73-86 | `"12. x"` formats to one section, numbered 2, with content `"x"` |
| AiReview.PiecesOfTwelveDotX | frontend/src/App.jsx:73 | `"12.x"` is not split |
| AiReview.SectionOfTwelveDotX | frontend/src/App.jsx:84-86 | `"12.x"` gives section 12 with content `"x"` |
| AiReview.NoCutWithoutBlank | frontend/src/App.jsx:73-86 | `"12.x"` formats to one section, numbered 12, with content `"x"` |
| AiReview.PiecesOfTenDotSpace | frontend/src/App.jsx:73 | `"10. x"` splits into `"1"` and `"0. x"` |
| AiReview.SectionOfZeroDotSpace | frontend/src/App.jsx:84-86 | `"1"` gives no section and `"0. x"` gives section 0 with content `"x"` |
| AiReview.TenthItemHasNoColour | frontend/src/App.jsx:73-99 | `"10. x"` formats to one section, numbered 0, with content `"x"` and no colour |
| AiReview.FormatAiReview | frontend/src/App.jsx:69-116 | the `forEach` and the fallback return exactly the sections of the specification |
| ReviewRender.ProseOf | frontend/src/App.jsx:577-588 | blank text adds nothing; other text adds one prose element, trimmed |
| ReviewRender.ElementsFrom | frontend/src/App.jsx:571-617 | one code element per block and at most one prose element around each |
| ReviewRender.ProseIsTrimmed | frontend/src/App.jsx:578-616 | every prose element is non-blank and has no surrounding white space |
| ReviewRender.ElementsCarryBlockCodes | frontend/src/App.jsx:575-602 | the code elements are the blocks' codes, each once and in order |
| ReviewRender.ElementsFromStep | frontend/src/App.jsx:575-602 | one turn of the `forEach` adds the prose before a block and the block, and moves `lastIndex` to the block's end |
| ReviewRender.SectionView | frontend/src/App.jsx:569-627 | with or without blocks, the body shows every code block of the section, once and in order |
| ReviewRender.Segments | frontend/src/App.jsx:577-605 | the loop walks over one slice before each block, the block's match, and one slice after the last block |
| ReviewRender.CodeBlocksTile | frontend/src/App.jsx:572-601 | the blocks of a text lie in order within it, so `lastIndex` never moves back, and each match is the text between its bounds |
| ReviewRender.SegmentsCoverContent | frontend/src/App.jsx:571-617 | the slices and matches put back together give the content from `lastIndex` on |
| ReviewRender.ElementsFollowSegments | frontend/src/App.jsx:575-616 | the elements are the trimmed non-blank slices before, between and after the blocks, interleaved with the blocks' codes |
| ReviewRender.SectionBlocksComeFromContent | frontend/src/App.jsx:91 | every section carries exactly the blocks found in its own content |
| ReviewRender.SectionSegmentsCoverContent | frontend/src/App.jsx:571-617 | for every section of a review, its blocks tile its content, and the text-before slices, block matches and text-after slice reconstruct it |
| ReviewRender.SegmentContent | frontend/src/App.jsx:571-617 | the `forEach` with the text after the last block yields exactly the elements of the specification; the slices `lastIndex` walks over are the segments, the elements are those slices trimmed and interleaved with the codes, and for blocks that tile the content the slices rebuild it |

## Left out

- Running the commands is not modelled. This covers `exec`, the shell, compilers and interpreters. `exec` is a function parameter from a command line to its callback's `(error, stdout, stderr)`. `ShellCommand.Run` takes whether each command succeeds as a parameter.
- The `console.warn` of stderr in `executeCode` is output only and is left out.
- The `exec` error keeps its message, exit code, signal, `killed` flag and command line. Its stack and any other properties are left out.
- The codes and outputs directories are parameters, and their creation when the module loads is left out. That creation is filesystem I/O that happens once, before any job.
- `uuid()` is a library call with a random result, so the job id is a parameter. Properties that need distinct ids assume them.
- `process.platform` is read through the parameter `isWindows`.
- `path.join` is modelled for one directory and one file name, with POSIX normalisation. Paths use the POSIX separator `/`; the Windows separator and drive letters are not modelled.
- `JobFiles.JoinKeepsNamesApart`: holds only for names that are single proper segments, because normalisation can merge other names.
- `JobFiles.DistinctJobsGetDistinctPaths`: holds only for a language without a separator. `JobFiles.ClimbingJobsCollide` shows a language for which it fails.
- Strings are sequences of Unicode scalar values. JavaScript indexes UTF-16 code units, so indices differ for text outside the Basic Multilingual Plane.
- `JsText.DecimalValue`: `parseInt` is exact here. Its loss of precision beyond 2^53 is not modelled.
- `null`, `undefined` and the empty string as falsy input are modelled as an absent value or an empty string.
- Only the fields and the element order of the review panel are modelled. JSX markup, keys, class names, the `CodeBlock` component and the `<pre>` fallback for a review that is not formatted are left out.
- The rest of `App.jsx` is not part of this model: React state, `fetch`, the clipboard, timers and the editor options.
- `backend/index.js` is not part of this model. It is HTTP routing and calls a `generateInputFile` whose source is not available.
- `backend/aiCodeReview.js` is not part of this model. It holds only prompts sent to an external API.
- `AiReview.AllSectionsHaveOneDigit`: the one-digit bound is proved only for sections cut at a marker. The first piece of a text that does not open with a marker keeps its full number (`"12.x"` gives 12).
