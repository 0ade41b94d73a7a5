# A model of the ackhava.dev terminal

The site's script (`script.mjs`) shows markdown pages. It also opens a small
make-believe shell in the browser when the location hash is `#terminal`.
The shell has four fixed folders (`~`, `~/about`, `~/projects`, `~/contact`)
and four files: three HTML pages and a `resume.md` fetched at start-up.

**The shell:**
- It understands `cd`, `ls` and `cat`.
- It keeps a transcript (`previousContent`) that only grows.
- It edits the command line from `keyup` events.

**Pure rules near the shell:**
- the path resolver `moveDirectory`;
- `escapeHtml`;
- the heading shift of embedded markdown;
- the `data-blocks` limit on embedded markdown;
- the choice between terminal and page made from the location hash.

**Modules:**

| module | file | contents |
|---|---|---|
| `Options` | `option.dfy` | `Option` |
| `Text` | `text.dfy` | the JavaScript string operations the script uses: `trim`, `split`, `join`, `slice`, `startsWith`, `endsWith` |
| `Paths` | `paths.dfy` | `moveDirectory` |
| `Escape` | `escape.dfy` | `escapeHtml`, a per-character reference encoding, and a decoder |
| `VirtualFs` | `filesystem.dfy` | the folders, the file table, and the `ls` listing |
| `Interpreter` | `interpreter.dfy` | `processCommand` as a function `Interpret` from directory and line to new directory and printed text |
| `Session` | `session.dfy` | the key handler as functions over a `State`, and the class `Terminal` |
| `Markdown` | `markdown.dfy` | `parseInt`, the block limit, and the shifted heading renderer |
| `Router` | `router.dfy` | `applyHashRoute`'s choice of view |

The class `Terminal` holds `cwd`, `previousContent` and `command` as
fields:
- Its methods `ProcessCommand` and `KeyUp` change them step by step, as the handlers do.
- `ProcessCommand` builds the `ls` set with a loop (`VirtualFs.ListContents`).
- Both methods are proved to agree with `Interpret` and `KeyStep`.

**Parameters instead of the outside world:**
- The markdown renderer (`marked.parse`) is a function parameter `render`.
- The fetched body of `resume.md` is a constructor parameter `resume`.

Three consequences of the code that are easy to miss:
- **`ls` in `~` also prints `index.html`.** The three page keys all begin with `~/`, and their last segment is `index.html`. The listing from `~` is `about`, `projects`, `contact`, `index.html`, `resume.md` (`VirtualFs.ListingOfRoot`).
- **The argument of `cat` never contains a space.** One might expect `trim().slice(4)` to keep embedded spaces, but the argument is only read when the line splits into exactly two tokens, so it is always the second token (`Interpreter.CatArgumentIsSecondToken`).
- **A file whose content is the empty string is reported as missing.** This is because the branch at `files[filePath]` is taken only for a truthy value (`Interpreter.ShowFileCases`).

## Model

| member | source | states |
|---|---|---|
| Text.Split | script.mjs:154 | `split` on a non-empty separator always returns at least one piece |
| Text.TrimStartShape | script.mjs:153 | `trimStart` removes a prefix made only of whitespace and stops at a non-whitespace character |
| Text.TrimEndShape | script.mjs:153 | `trimEnd` removes a suffix made only of whitespace and stops at a non-whitespace character |
| Text.TrimShape | script.mjs:153 | the trimmed line neither begins nor ends with whitespace |
| Text.TrimOfTrimmed | script.mjs:153 | a string with no whitespace at either edge is its own trim |
| Text.TrimStartEmpty | script.mjs:153 | `trimStart` gives the empty string exactly when the input is all whitespace |
| Text.TrimEndEmpty | script.mjs:153 | `trimEnd` gives the empty string exactly when the input is all whitespace |
| Text.TrimEmpty | script.mjs:153 | `trim` gives the empty string exactly when the input is all whitespace |
| Text.JoinSplit | script.mjs:131 | joining the pieces of a split with the same separator gives back the string |
| Text.SplitWithoutSeparator | script.mjs:131 | a string without the separator splits into itself alone |
| Text.SplitAround | script.mjs:131 | splitting on a character distributes over one occurrence of it |
| Text.SplitLastSegment | script.mjs:131 | the segments of `p/seg` are those of `p` followed by `seg` |
| Text.JoinAt | script.mjs:218 | a join is the join of the pieces before any inner boundary, the separator, and the join of the pieces after it |
| Text.SegmentsOfChild | script.mjs:131 | `p/seg` has last segment `seg`, and dropping it leaves `p` |
| Text.SegmentsOfName | script.mjs:131 | a slash-free path is its own last segment, and dropping it leaves the empty string |
| Paths.ParentOfChild | script.mjs:130-131 | `..` from `p/seg` is `p` |
| Paths.ParentOfTop | script.mjs:130-131 | `..` from a path without a slash, `~` included, is the empty string |
| Paths.DescendThenAscend | script.mjs:128-140 | a child name resolves to `current/name`, and `..` from there comes back to `current` |
| Paths.AbsoluteTargetIgnoresCurrent | script.mjs:132-133 | a target beginning with `~` resolves to itself from any directory |
| Paths.ResolvedPathIsRooted | script.mjs:128-140 | from a directory beginning with `~`, every resolved path begins with `~` or is empty |
| Paths.UpFromAbout | script.mjs:130-131 | `~/about` and `..` give `~` |
| Paths.UpFromRoot | script.mjs:130-131 | `~` and `..` give the empty string |
| Paths.DotSlashFromRoot | script.mjs:134-135 | `~` and `./foo` give `~foo`, with no slash inserted |
| Paths.ChildOfRoot | script.mjs:136-137 | `~` and `projects` give `~/projects` |
| Escape.ReplaceAllAbsent | script.mjs:143-148 | `replaceAll` of a character that does not occur changes nothing |
| Escape.ReplaceAllConcat | script.mjs:143-148 | `replaceAll` of one character distributes over concatenation |
| Escape.EscapeHtmlConcat | script.mjs:142-149 | `escapeHtml` distributes over concatenation |
| Escape.EscapeHtmlOneChar | script.mjs:142-149 | on one character, the chain of five replacements gives that character's entity, or the character itself |
| Escape.EscapeHtmlIsPerCharacter | script.mjs:142-149 | the chain of five replacements, `&` first, equals encoding each character on its own |
| Escape.EscapeCharSafe | script.mjs:142-149 | no entity holds a markup character, and an `&` appears in an entity only at its start |
| Escape.EscapeEachSafe | script.mjs:142-149 | the per-character encoding holds no `<`, `>`, `"` or `'`, and every `&` in it begins one of the five entities |
| Escape.EscapeHtmlSafe | script.mjs:142-149 | `escapeHtml` output holds no `<`, `>`, `"` or `'`, and every `&` in it begins one of the five entities |
| Escape.UnescapeEscapeChar | script.mjs:142-149 | decoding an entity followed by anything gives back its character, followed by the decoding of the rest |
| Escape.UnescapeEscapeEach | script.mjs:142-149 | decoding the per-character encoding gives back the input |
| Escape.EscapeHtmlRoundTrip | script.mjs:142-149 | decoding `escapeHtml` output gives back the input: no `&` is processed twice |
| Escape.EscapeHtmlPlain | script.mjs:142-149 | text without `&` or markup characters is left as it is |
| VirtualFs.Keys | script.mjs:174 | `Object.keys` lists the table's keys in insertion order |
| VirtualFs.ListContents | script.mjs:172-175 | the set that `ls` builds, folders first and then file keys, equals `KeepFirst` of the children of both |
| VirtualFs.AddChildren | script.mjs:173-174 | one `filter`/`map`/`forEach` pass adds each new last segment below `cwd` to the set, in order |
| VirtualFs.AddPathStep | script.mjs:173-174 | one path grows the set by its last segment exactly when the path is below `cwd` and the name is new |
| VirtualFs.ChildrenAppend | script.mjs:173-174 | the children of two lists of paths are the children of each, in order |
| VirtualFs.KeepFirstSnoc | script.mjs:172-174 | adding a name to a set appends it unless it is already there |
| VirtualFs.KeepFirstElements | script.mjs:172-174 | the set holds exactly the names added to it |
| VirtualFs.KeepFirstDistinct | script.mjs:172-174 | the set holds each name once |
| VirtualFs.KeepFirstPrefix | script.mjs:172-174 | later additions never reorder or remove earlier names, so folder names come before file names |
| VirtualFs.KeepFirstOfDistinct | script.mjs:172-174 | names without repetition are kept as they are |
| VirtualFs.ChildrenMembers | script.mjs:173 | a name is among the children exactly when some path below `cwd` has it as last segment |
| VirtualFs.ListingContents | script.mjs:172-175 | the `ls` names are distinct and begin with the folder names; a name is listed exactly when it is the last segment of a folder or file key below `cwd` |
| VirtualFs.ListingOfRoot | script.mjs:172-175 | in `~` the listing is `about`, `projects`, `contact`, `index.html`, `resume.md` |
| VirtualFs.LookupFinds | script.mjs:184 | `files[path]` finds an entry exactly when `path` is a key, and then finds the content stored under it |
| Interpreter.ErrorLine | script.mjs:156 | an error line ends in `<br>` |
| Interpreter.ChangeDirectory | script.mjs:155-166 | `cd` either stays put or moves to a folder; a move prints nothing; any output ends in `<br>` |
| Interpreter.ShowFile | script.mjs:181-192 | what `cat` prints always ends in `<br>` |
| Interpreter.Interpret | script.mjs:151-202 | after any command the directory is unchanged or a folder; blank input prints a newline; other output is empty or ends in `<br>` |
| Interpreter.ReadCommand | script.mjs:153-154 | a word, one space and a word are their own trim and split into exactly those two tokens |
| Interpreter.CatArgumentIsSecondToken | script.mjs:178-181 | when `cat` has exactly one argument, `trim().slice(4)` is that argument |
| Interpreter.OnlyCdMoves | script.mjs:160-163 | the directory changes only for a `cd` with one argument that resolves to a folder, and then prints nothing; everything else leaves it as it was |
| Interpreter.CdCommand | script.mjs:158-166 | `cd arg` moves to the resolved path if it is a folder, and otherwise prints `No such directory: arg` |
| Interpreter.CdToFolder | script.mjs:162-163 | every folder can be reached from anywhere by naming it |
| Interpreter.ParentFolder | script.mjs:28-33 | the parent of every folder but `~` is a folder |
| Interpreter.CdDownAndUp | script.mjs:155-166 | `cd name` into a child folder and `cd ..` back return to the start, each printing nothing |
| Interpreter.LsCommand | script.mjs:169-175 | `ls` prints the listing with each name followed by `<br>` |
| Interpreter.LsAtRoot | script.mjs:169-175 | `ls` in `~` prints `about`, `projects`, `contact`, `index.html` and `resume.md` |
| Interpreter.CatCommand | script.mjs:178-192 | `cat arg` shows the file that `arg` resolves to |
| Interpreter.ShowFileCases | script.mjs:184-191 | a missing or empty file prints `No such file: arg`; a `.md` file is rendered; any other file is printed escaped, holding no markup and decoding back to its content |
| Interpreter.UnknownCommand | script.mjs:194-195 | for every line, any first token other than `cd`, `ls` and `cat` prints `Unrecognized command: ` followed by that token, and the directory stays |
| Interpreter.UnknownWord | script.mjs:194-195 | a single unknown word prints `Unrecognized command: word` |
| Interpreter.UnknownWordWithArgument | script.mjs:194-195 | an unknown word followed by an argument, such as `foo bar`, is reported with the word alone |
| Interpreter.ArityErrors | script.mjs:155-179 | `cd` and `cat` without exactly one argument, and `ls` with any, print their messages and stay put |
| Interpreter.BlankInput | script.mjs:197-198 | a command prints a bare newline exactly when it is all whitespace |
| Session.Initial | script.mjs:24-26 | the session starts at `~` with the prompt shown and an empty command, so the invariant holds |
| Session.Display | script.mjs:47 | the screen begins with the transcript and ends with the typed command |
| Session.EditBuffer | script.mjs:120-124 | Backspace drops exactly the last character and leaves an empty command empty; a one-character key is appended; any other key changes nothing |
| Session.Submit | script.mjs:117-119 | Enter clears the command and moves to `Interpret`'s directory; the transcript keeps what it had, followed by the echoed command, and ends with the new prompt |
| Session.KeyStepGood | script.mjs:114-126 | every key keeps the directory a folder and the prompt at the end of the transcript, and only appends to the transcript |
| Session.EditingKeepsTranscript | script.mjs:120-124 | keys other than Enter change neither the directory nor the transcript |
| Session.RunGood | script.mjs:114-126 | after any sequence of keys the directory is a folder, the transcript ends with its prompt, and the transcript has only grown |
| Session.RunAppend | script.mjs:114-126 | running two key sequences one after the other is running their concatenation |
| Session.TypeWord | script.mjs:122-123 | typing a word appends it to the command and changes nothing else |
| Session.EraseChars | script.mjs:120-121 | `n` Backspaces remove the last `n` characters and stop at an empty command |
| Session.TypeThenErase | script.mjs:120-123 | typing a word and erasing it again restores the state |
| Session.TypeAndEnter | script.mjs:117-119 | typing a line and pressing Enter runs exactly that line and records it, its output and the new prompt |
| Session.Terminal.constructor | script.mjs:24-40 | the terminal opens at `~`, showing the prompt, with the file table holding the fetched resume |
| Session.Terminal.ProcessCommand | script.mjs:151-202 | the fields change as `Interpret` says: the transcript gains the echoed command, the output and the prompt for the new directory, so it always ends with that prompt; the directory stays or becomes a folder, so the invariant is kept |
| Session.Terminal.ChangeDir | script.mjs:155-166 | the `cd` branch changes the directory and transcript as `ChangeDirectory` says |
| Session.Terminal.List | script.mjs:168-176 | the `ls` branch appends the arity error or the listing built by the set loop |
| Session.Terminal.Cat | script.mjs:177-193 | the `cat` branch appends the arity error or what `ShowFile` prints |
| Session.Terminal.KeyUp | script.mjs:114-126 | the `keyup` handler changes the fields as `KeyStep` says and keeps the invariant whenever it held before |
| Markdown.NatToString | script.mjs:8 | a numeral is digits only, with no leading zero except `0` itself |
| Markdown.DigitPrefix | script.mjs:214 | `parseInt` reads the longest run of leading digits |
| Markdown.DigitsOfNat | script.mjs:214 | the value of a numeral's digits is the number |
| Markdown.ParseIntOfNumeral | script.mjs:214 | `parseInt(n + rest)` is `n` when `rest` does not begin with a digit, so `"3px"` gives 3 |
| Markdown.ParseIntOfNat | script.mjs:214 | `parseInt` reads back every numeral |
| Markdown.ParseIntOfNegative | script.mjs:214 | a minus sign before a numeral negates it |
| Markdown.ParseIntOfWord | script.mjs:214 | text beginning with anything but whitespace, a sign or a digit is NaN |
| Markdown.BlockLimit | script.mjs:214 | the limit, `parseInt` of the attribute or else `undefined`, is never 0 |
| Markdown.AbsentAttribute | script.mjs:213-214 | a missing `data-blocks` (read as `"null"`) means no limit |
| Markdown.CountAttribute | script.mjs:214 | a positive count is taken as written |
| Markdown.ZeroAttribute | script.mjs:214 | `data-blocks="0"` means no limit rather than no blocks |
| Markdown.JoinPrefix | script.mjs:218 | joining the first `k` pieces gives a prefix of joining all of them |
| Markdown.LimitIsPrefix | script.mjs:218 | whatever the attribute, the limited markdown is a prefix of the file |
| Markdown.NoLimitKeepsAll | script.mjs:218 | with no limit, or a limit at least the number of blocks, the file is kept whole |
| Markdown.LimitSplitsFile | script.mjs:218 | a limit of `n` below the block count keeps the first `n` blocks; these, a blank line and the dropped blocks make up the file again |
| Markdown.NegativeLimitDropsLast | script.mjs:218 | a limit of `-n` drops the last `n` blocks |
| Markdown.NegativeLimitPastStart | script.mjs:218 | a limit of `-n` with `n` at least the number of blocks keeps nothing |
| Markdown.ShiftDepthRange | script.mjs:7 | depths 1 to 6 become 2 to 6: one deeper, except that 6 stays |
| Markdown.ShiftDepthMonotone | script.mjs:7 | the shift keeps the order of heading levels |
| Markdown.ShiftDepthMerges | script.mjs:7 | only depths 5 and 6 meet after the shift |
| Markdown.HeadingLevel | script.mjs:7-8 | the number in the rendered opening tag is the shifted depth |
| Router.PageName | script.mjs:234 | the page name is never empty |
| Router.TerminalRoute | script.mjs:231-232 | exactly the hash `#terminal` opens the terminal |
| Router.NamedPageRoute | script.mjs:233-234 | any other `#name` opens the page `name` |
| Router.IndexRoute | script.mjs:234 | an empty hash, or a bare `#`, opens `index` |

## Left out

- **The DOM:** `innerHTML` writes, the cursor, focus, blur and click listeners, and class toggling. These are user interface. `Session.Display` gives the text that `updateDisplay` writes.
- **Scrolling:** the `keydown` handler and `requestAnimationFrame`. They depend on browser layout metrics and never touch the session state.
- **`fetch`:** the body of `resume.md` is the constructor parameter `resume`. `loadPage` and its choice of fragment by HTTP status are network I/O; the model stops at `Router.Route`'s choice of page name.
- **`marked.parse` and `marked.Renderer`:** these belong to a third-party library. `cat` of a `.md` file uses the parameter `render`, and the shifted renderer is modelled only by its `heading` method (`Markdown.HeadingHtml`).
- **Asynchronous ordering:** `Promise.all`, the three repeated `loadMarkdownFetch` passes and the hash-change listener. The model has no concurrency.
- **The `rendered` class check, the `data-heading-shift` flag, and the `console.log` calls:** these only choose whether or how to call the parser, or print diagnostics.
- **Session.Terminal.KeyUp, Session.EditBuffer:** they count a key's length in characters. JavaScript counts UTF-16 code units, so a key outside the Basic Multilingual Plane, which JavaScript reports with length 2, is not modelled.
- **Text.Trim:** the whitespace set is written out by code point, and strings are sequences of characters rather than UTF-16 units.
- **Markdown.ParseInt:** it yields exact integers. JavaScript numbers above 2^53 lose precision, which could change a very large block limit.
