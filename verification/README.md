# pm task core, modelled in Dafny

This project models the core of the `pm` task manager, a small Go program.

- **The task** (`state/task.go`):
  - `Task` with its title and story.
  - `Normalize`, which cleans both fields and upper-cases the title.
  - The white-space clean-up `trim`.
  - Every deterministic part of `Edit`:
    - the temp-file name built from the title;
    - the `SHELL` and `EDITOR` settings with their defaults;
    - the editor command line;
    - which of its six error returns `Edit` takes, and what each does to the task.
- **The console session** (`ui/ui.go`):
  - The `UI` value (`nl` flag and width).
  - The blank-line protocol of `newline`.
  - The word-wrapper `paragraph` and `spaces`.
  - The questions `QueryYesNo` and `QueryLine`.
  - The printers `Message`, `Display` and `Line`.

Files:

- `wrappers.dfy` holds `Option`.
- `text.dfy` holds the pieces of Go's standard library the core relies on:
  - `unicode.IsSpace` and the regexp class `\s`;
  - `strings.TrimSpace`, `ToUpper`, `Split` and `ReplaceAll`;
  - `len` in UTF-8 bytes;
  - `%d`.
- `task.dfy` models `state/task.go`.
- `layout.dfy` models `paragraph` and `spaces`.
- `ui.dfy` models the rest of `ui/ui.go`.

How the session is modelled:

- Output is the list of `fmt` calls made: `Println()`, `Print(s)`, `Println(s)`.
- Input is what the session's one `bufio.Reader` still holds. It is a list of whole lines, each returned by `ReadString('\n')` with a nil error. After them comes the text before the end of input, which is returned together with `io.EOF`. `Ui.WellFormed` states that shape: each line ends in its only newline, and the tail holds none.
- `Edit`'s file system, JSON codec and editor process are parameters. A `Host` records:
  - whether each file operation succeeds;
  - the temp directory;
  - the random part of the temp name;
  - the environment;
  - an editor function from the command and file contents to the edited contents, or to a failure.
- A `Codec` pairs an encoder with a decoder. The decoder returns one optional value per field, because a key missing from the file leaves that field as it was.

Where the code and its own description differ, the model follows the code:

- **Vertical tabs survive `trim`.** `trim` (`state/task.go:92-96`) is said to turn every run of white space into one space. The run is matched by the regexp `\s`, which is `[\t\n\f\r ]` in Go, while `strings.TrimSpace` strips everything `unicode.IsSpace` accepts. So a vertical tab, U+0085, U+00A0 and the other Unicode spaces are removed at the ends but kept inside the text (`State.TrimStripsOuterSpace`, `State.TrimKeepsInnerNonRegexSpace`).
- **Lines can exceed the width.** The comment on `paragraph` (`ui/ui.go:40-44`) promises that no line exceeds the width. The code compares the running count with the width only after a word has been appended, so the next word still joins a line that has just reached the width. For example, at width 5 "aaaa bbbb cccc" becomes "aaaa bbbb\ncccc" (`Layout.ParagraphWrapsLate`). A single word longer than the width can never fit either.

## Model

| member | source | states |
|---|---|---|
| Text.TrimSpace | state/task.go:95 | neither end of the result is white space (`unicode.IsSpace`), and a string already without white space at its ends is returned unchanged |
| Text.TrimSpaceOnlyEnds | state/task.go:65 | `TrimSpace` cuts only at the ends: the result is a contiguous slice of the input with nothing but white space before and after it |
| Text.TrimSpaceVisible | state/task.go:65 | `TrimSpace` removes only white space: the visible characters are kept in order, and the result is empty exactly when the input is all white space |
| Text.ToUpper | state/task.go:28 | same length, no lower-case letter is left, each lower-case letter becomes its capital and every other character is kept |
| Text.Split | ui/ui.go:46 | `strings.Split` at one separator yields at least one piece and no piece contains the separator |
| Text.JoinSplit | ui/ui.go:46 | joining the pieces of `Split` with the separator gives the input back |
| Text.SplitJoin | ui/ui.go:46 | `Split` undoes joining, for pieces without the separator |
| Text.SplitAppend | ui/ui.go:46 | splitting `a + sep + b` splits `a` and `b` independently and concatenates the pieces |
| Text.ReplaceChar | state/task.go:49 | each occurrence of the old character becomes the new one, nothing else changes, and none of the old character is left |
| Text.ByteLen | ui/ui.go:51 | Go's `len` of a string lies between its number of code points and four times that |
| Text.ByteLenAppend | ui/ui.go:50-51 | the byte length of a concatenation is the sum of the byte lengths |
| Text.Decimal | ui/ui.go:93 | `%d` of a non-negative index is digits only, has no leading zero, and has one digit exactly below 10 and two exactly from 10 to 99 |
| Text.DecimalRoundTrip | ui/ui.go:93 | reading the numeral back gives the number |
| State.Collapse | state/task.go:95 | `\s+` replaced by " ": the result is empty exactly when the input is, and its first and last characters are the input's, with a `\s` character turned into a space |
| State.CollapseCollapsed | state/task.go:95 | after the replacement, every `\s` character is a plain space and no two are adjacent |
| State.CollapseVisible | state/task.go:95 | the replacement keeps every visible character, in order |
| State.CollapseFixed | state/task.go:95 | a string already collapsed is left unchanged |
| State.CollapseAppend | state/task.go:95 | the replacement works piecewise when the cut does not fall inside a run of `\s` |
| State.CollapseRun | state/task.go:95 | a run of `\s` characters of any length between two pieces of text becomes exactly one space |
| State.TrimRun | state/task.go:92-96 | `trim` joins two pieces of text separated by a run of `\s` with a single space |
| State.Trim | state/task.go:92-96 | `trim`'s result is collapsed with no white space at either end, keeps the visible characters, and is empty exactly when the input is all white space |
| State.TrimFixedIff | state/task.go:92-96 | `trim` leaves a string unchanged exactly when it already has that shape |
| State.TrimIdempotent | state/task.go:92-96 | applying `trim` twice gives the same result as once |
| State.TrimKeepsInnerVerticalTabs | state/task.go:95 | a run of vertical tabs inside the text survives `trim`, since `\s` does not match them |
| State.TrimKeepsInnerNonRegexSpace | state/task.go:94-96 | a white-space character outside `\s` (vertical tab, U+0085, U+00A0, the other Unicode spaces) between two trimmed pieces of text survives `trim` unchanged |
| State.TrimStripsOuterSpace | state/task.go:94-96 | any white-space character at either end of trimmed text, a vertical tab included, is stripped by `trim` |
| State.TrimStripsOuterVerticalTabs | state/task.go:95 | vertical tabs at the ends are stripped, since `TrimSpace` does match them |
| State.UpperKeepsTrimmed | state/task.go:28 | upper-casing a trimmed string keeps it trimmed |
| State.Normalize | state/task.go:27-39 | "title is empty" exactly when the title is all white space; "story is empty" exactly when only the story is; on error the task is unchanged; on success the title is the upper-cased trimmed title, the story the trimmed story, and the task is normalized |
| State.NormalizeFixedIff | state/task.go:20-39 | `Normalize` succeeds without changing the task exactly when the task is already normalized |
| State.NormalizeIdempotent | state/task.go:27-39 | normalizing a normalized task gives it back |
| State.NamePattern | state/task.go:49 | the temp-file pattern is "*_" followed by the title, character by character, with each space made '_' and every other character kept; it holds no space |
| State.LastStar | state/task.go:50 | the position of the last '*' of the pattern, or none exactly when there is no '*' |
| State.TempName | state/task.go:50 | the file name is the pattern with its last '*' replaced by the random part, or the pattern followed by the random part when it has no '*' |
| State.TempPath | state/task.go:50 | the created path ends with the file name made from the pattern and the random part |
| State.TempNameCarriesTitle | state/task.go:49-50 | for a title without '*', the file name is the random part, '_', and the title with its spaces made '_' |
| State.TempPathNoSpace | state/task.go:49-50 | a temp directory and random part without spaces give a path without spaces |
| State.Setting | state/task.go:65-72 | an all-white-space or unset variable gives the default; otherwise the value is the variable's `TrimSpace`: non-empty, no white space at its ends, the same visible characters, and a slice of the variable with only white space cut from either end |
| State.Shell | state/task.go:65-68 | the shell is never blank and has no white space at its ends |
| State.EditorProgram | state/task.go:69-72 | the editor is never blank and has no white space at its ends |
| State.EditCommand | state/task.go:73 | the command runs the shell with "-c" and one script argument: the editor setting, one space, and the file path, for every path |
| State.CommandEndsWithPath | state/task.go:73 | splitting the script at spaces gives the space-separated pieces of the editor setting followed by those of the file path; a path without a space is the last piece |
| State.Adopt | state/task.go:84-85 | decoding into the task: each field the file holds replaces the task's and each field it lacks keeps the task's; a file with both fields gives exactly the decoded task, one with neither leaves the task as it was |
| State.Edit | state/task.go:48-90 | each of the six errors is returned exactly when its step is the first to fail, in source order (temp file, encode, close, editor, reopen, decode), and `Normalize`'s errors never are; every error leaves the task unchanged; success exactly when every step succeeds, and then the decoded fields replace the task's |
| State.EditUnchangedFile | state/task.go:41-47 | with a lossless codec, closing the editor without changes succeeds and leaves the task as it was |
| State.EditAdoptsFile | state/task.go:80-87 | with a lossless codec, the task left encoded in the file replaces the old one |
| Layout.Spaces | ui/ui.go:114-120 | `spaces(n)` is n spaces, and empty when n is not positive |
| Layout.SpacesBytes | ui/ui.go:114-120 | `spaces(n)` is n bytes long for positive n and zero bytes otherwise |
| Layout.Break | ui/ui.go:54 | a wrap is a newline then the indentation: all white space, and never a lone space |
| Layout.Counts | ui/ui.go:47-51 | one running count per word, the first being the first word's length in bytes |
| Layout.CountsNext | ui/ui.go:51-59 | each later count is the previous one reset to the indent after a wrap or increased by one for a space, plus the word's length in bytes |
| Layout.Separators | ui/ui.go:52-59 | one separator between each two words, each a space or a wrap, and a wrap exactly when the running count after the word before it exceeds the width |
| Layout.Paragraph | ui/ui.go:45-63 | only white space changes: the wrapped text shows the same visible characters as the input, in order |
| Layout.WeaveVisible | ui/ui.go:46-60 | weaving the words with white-space separators keeps the visible characters of the words joined by spaces |
| Layout.LoopStep | ui/ui.go:49-61 | one turn of the loop brings the count to the count after the word and appends the separator the counting rule picks |
| Layout.ParagraphLoop | ui/ui.go:45-63 | the loop of `paragraph` computes the words woven with the separators the counting rule picks |
| Layout.ParagraphNoSpace | ui/ui.go:45-63 | a text without spaces comes back unchanged |
| Layout.ParagraphUnwrap | ui/ui.go:45-63 | turning every wrap that `paragraph` places, at this width and indentation, back into a space gives the input again |
| Layout.ParagraphFits | ui/ui.go:45-63 | a text no longer than the width in bytes is never wrapped |
| Layout.CountIsLineLength | ui/ui.go:51-59 | the running count is the byte length of the current output line, indentation included |
| Layout.WrapIffLineTooLong | ui/ui.go:52-55 | a wrap follows a word exactly when the output line it ends is longer than the width |
| Layout.ParagraphTwoWords | ui/ui.go:52-59 | two words are separated by a newline and the indentation exactly when the first is longer than the width, else by one space |
| Layout.ParagraphStrictBound | ui/ui.go:53 | a count equal to the width does not wrap, and one byte more does |
| Layout.ParagraphWrapsLate | ui/ui.go:40-63 | when the first word fits, the second stays on its line whatever its length, so that line exceeds the width and the wrap comes after it |
| Ui.New | ui/ui.go:20-22 | a new `UI` has the given width and has printed nothing, so its first interaction prints no blank line |
| Ui.ReadString | ui/ui.go:69 | one `ReadString('\n')` call, as `QueryYesNo` and `QueryLine` make it: the data read and what remains make up the reader's stream; the read fails exactly when no whole line is left and then takes all there is; on well-formed input a successful read is one line ending at its newline, and what remains stays well formed |
| Ui.Newline | ui/ui.go:31-38 | `newline` sets `nl` and prints one blank line exactly when an interaction came before |
| Ui.PrintsKeepProtocol | ui/ui.go:12-13 | `newline` followed by printing non-blank lines keeps the blank-line protocol |
| Ui.RunBlankLines | ui/ui.go:12-13 | every operation but a session's first is preceded by exactly one blank line |
| Ui.SessionBlankLines | ui/ui.go:12-22 | k operations on a new `UI` print exactly k - 1 blank lines |
| Ui.Step | ui/ui.go:65-112 | each public operation keeps the blank-line protocol |
| Ui.Answer | ui/ui.go:73-78 | a line answers yes exactly when it trims to "y", no exactly when it trims to "n", and nothing otherwise |
| Ui.AnswerIffVisible | ui/ui.go:73-78 | a line answers yes exactly when its only visible character is 'y', and no exactly when it is 'n' |
| Ui.FirstAnswer | ui/ui.go:73-78 | the first line whose trimmed text is "y" or "n", with every line before it answering neither |
| Ui.AskLoop | ui/ui.go:67-79 | the loop prompts once per line read, returns the first answer and leaves exactly the lines after it and the unread tail, or fails with false once the input runs out |
| Ui.QueryYesNo | ui/ui.go:65-80 | `QueryYesNo` keeps the protocol, prints as many prompts as lines it reads, answers as the first "y"/"n" line does and leaves the rest of the input untouched, and otherwise fails with false and no input left |
| Ui.TrimmedLine | ui/ui.go:73 | a word typed on a line reads back as that word once trimmed |
| Ui.QueryYesNoSkipsOtherLines | ui/ui.go:67-79 | "maybe" then "y" answers yes after two prompts |
| Ui.QueryYesNoNeedsNewline | ui/ui.go:69-72 | a "y" cut off by the end of input is an error, not an answer |
| Ui.QueryLine | ui/ui.go:82-85 | `QueryLine` returns the next line with its newline and leaves the rest of the input untouched, or fails with what remains before the end of input and leaves nothing; on well-formed input the line read is one whole line and the rest stays well formed |
| Ui.Message | ui/ui.go:87-90 | `Message` keeps the protocol and prints one line: "+ " and the text, wrapped with indent 2 |
| Ui.MessageText | ui/ui.go:89 | the message starts with '+', and is printed as is when it fits the width |
| Ui.Line | ui/ui.go:109-112 | `Line` keeps the protocol and prints "---" |
| Ui.Header | ui/ui.go:93-102 | for every index the title line is the index, ". ", one more space below 10, then "[open] " up to the last opened index or "[todo] " after it, then the title; below 100 the tag sits at column 4 |
| Ui.HeaderExamples | ui/ui.go:93-102 | "3.  [open] T", "7.  [todo] T" and "12. [open] T" |
| Ui.Display | ui/ui.go:92-107 | `Display` keeps the protocol and prints the header and the story after four spaces, each wrapped with indent 4 |

## Left out

- Text.ToUpper: only ASCII letters are mapped. The model does not apply Go's full Unicode case mapping, which can also change the length of a string.
- State.Edit: a decode error leaves the task unchanged in the model. Go's `json.Decoder` may already have assigned some fields when it meets a type error. The JSON format itself is not modelled: the encoder and decoder are parameters, and `Lossless` is the one property assumed of them.
- State.CommandEndsWithPath: only splitting at spaces is stated. How the shell parses the script is not modelled: tabs, quotes, `;`, `&`, `|`, `$` and backquotes in the editor setting or the path change its reading.
- State.TempPath: the directory is taken as given. The model does not cover `os.TempDir`, path cleaning, or the error newer Go versions return for a pattern holding a path separator, which a '/' in the title would cause.
- The file system, the editor's child process, `exec`'s `PATH` lookup, and the wiring of stdin and stdout are outcomes in `Host`, not modelled behaviour.
- Ui.Message: takes the already formatted text. `fmt.Sprintf`'s verbs are not modelled.
- Ui.Display: the index is a natural number within the queue. The task queue type `state.TaskQueue` is not part of this model. `Queue` stands for its `At` and `LastOpenedIndex`.
- `reader()`'s lazy creation of the `bufio.Reader` on stdin is not modelled. The input is the single reader's remaining content from the start.
- Read errors other than the end of input are not modelled separately. Any `ReadString` error ends the input.
- Strings are sequences of Unicode code points, so invalid UTF-8 cannot be represented.
