# bulk-convert front end, modelled in Dafny

bulk-convert is an interactive console tool. It asks which file extensions to convert
from, which extension to convert to, and which folders to work on. It collects the
folders through a native folder-picker dialog and asks "Would you like to pick more
folders?" until the user answers no. This project models the self-contained logic of
that front end (`src/main.rs`) and proves what it does:

- `Text` (`text.dfy`): `str::trim`, the whitespace class it strips and the letter class
  the tokenizer splits on. `IsWhitespace` is Rust's `char::is_whitespace` in full.
  `IsAlpha` stands for `char::is_alphabetic`. The general tokenizer lemmas hold whatever
  it classifies as a letter; only the three examples depend on the table.
- `Extensions` (`extensions.dfy`): `split_from`, the tokenizer for the "Convert from:" line.
  It is modelled as the Rust code's iterator chain: `Pieces` is `str::split` at every
  non-alphabetic character, empty pieces included, and `NonEmpty` is the
  `.filter(|s| s.len() > 0)` step.
- `Answers` (`answers.dfy`): `get_line` and `get_yes_no`. The stdin line iterator is
  represented by the items it has still to hand out (`seq<LineRead>`). An item is either a
  line or a read error. Every operation that advances the iterator returns the items left
  over. `GetYesNo` is `get_yes_no`'s `loop` as a `while` loop. It returns the answer or error,
  the items left over, and the prompts it printed, and it is proved equal to `Ask`, a
  recursive description of the same exchange. The lemmas about `Ask` state the behaviour
  in full.
- `Folders` (`folders.dfy`): the `Response` match in `get_folders`. The dialog's outcome is
  passed in as a value.
- `Wrappers` (`wrappers.dfy`): the `Result` type used for Rust's `Result` and `?`.

The prompt `[Yn]` or `[yN]` (`src/main.rs:19-23`) capitalises one letter. That convention
suggests an empty answer picks the capitalised default. In the code, the empty-answer test
(`src/main.rs:27-28`) has an empty body, so an empty line is asked again and `default`
changes only the prompt text. The model follows the code and proves this quirk
(`Answers.AskIgnoresDefault`, `Answers.AskBlankLine`).

## Model

| member | source | states |
|---|---|---|
| `Text.IsWhitespace` | src/main.rs:26 | the whitespace `trim` removes: exactly the Unicode White_Space list of `char::is_whitespace`; what it guarantees is stated by `Text.WhitespaceNotAlpha` and the trim lemmas |
| `Text.WhitespaceNotAlpha` | src/main.rs:26 | no whitespace character is alphabetic, so trimming never touches a letter |
| `Text.IsAlpha` | src/main.rs:38 | `char::is_alphabetic`, exact below U+0100 (ASCII and Latin-1 letters, ª, µ, º); every higher character counts as non-alphabetic |
| `Text.TrimStart` | src/main.rs:26 | the leading-whitespace half of `str::trim`; its contract is `Text.TrimStartSpec`, kept as a lemma so the answer-loop proofs do not pay for it at every use |
| `Text.TrimEnd` | src/main.rs:26 | the trailing-whitespace half of `str::trim`; its contract is `Text.TrimEndSpec`, kept as a lemma for the same reason |
| `Text.Trim` | src/main.rs:26 | `line.trim()` as one strip after the other; its contract is `Text.TrimSpec`, `Text.TrimSplitsLine` and `Text.TrimSurrounded` |
| `Text.TrimStartSpec` | src/main.rs:26 | the leading-whitespace strip keeps a suffix that is empty or starts with a non-whitespace character, and drops only whitespace |
| `Text.TrimEndSpec` | src/main.rs:26 | the trailing-whitespace strip keeps a prefix that is empty or ends with a non-whitespace character, and drops only whitespace |
| `Text.TrimSpec` | src/main.rs:26 | `line.trim()` has no whitespace at either end; it is a prefix of the leading-whitespace strip, which is a suffix of the line, and what lies before and after it in the line is whitespace only |
| `Text.TrimSplitsLine` | src/main.rs:26 | the line is exactly its leading whitespace, then `line.trim()`, then its trailing whitespace, in that order |
| `Text.TrimSurrounded` | src/main.rs:26 | for any string made of whitespace, a text with no whitespace at its ends, and more whitespace, trim returns exactly that text, so `" y "` reads as `y` |
| `Extensions.Pieces` | src/main.rs:38 | `str::split` at every non-alphabetic character always yields at least one piece, even for an empty line |
| `Extensions.PiecesCount` | src/main.rs:38 | there is one more piece than there are separators (non-alphabetic characters) |
| `Extensions.PiecesSpec` | src/main.rs:38 | every piece of the split holds only alphabetic characters, and the pieces joined in order are the line's letters |
| `Extensions.NonEmpty` | src/main.rs:38 | the length filter after the split returns no more pieces than it is given |
| `Extensions.NonEmptySpec` | src/main.rs:38 | the length filter returns only non-empty pieces, keeps the all-alphabetic property when every piece has it, joins to the same text as its input, and keeps a single piece exactly when that piece is non-empty |
| `Extensions.NonEmptyAppend` | src/main.rs:38 | the filter works piece by piece: filtering two lists one after the other equals filtering their concatenation; with `Extensions.NonEmptySpec` this fixes the result as the non-empty pieces, unchanged and in order |
| `Extensions.SplitFrom` | src/main.rs:37-39 | every token is non-empty and made of alphabetic characters only; the tokens joined in order are the line with every non-alphabetic character removed |
| `Extensions.SplitFromSeparator` | src/main.rs:38 | a non-alphabetic character splits the line: the tokens are those of the text before it, followed by those of the text after it |
| `Extensions.SplitFromRun` | src/main.rs:38 | a non-empty all-alphabetic line is a single token, never split further |
| `Extensions.SplitFromNothing` | src/main.rs:38 | an empty line gives no token |
| `Extensions.SplitFromEdges` | src/main.rs:38 | a separator at the start or end of the line adds no token |
| `Extensions.SplitFromAfterSeparator` | src/main.rs:38 | text that ends with a separator contributes its own tokens, and no token crosses the boundary with the text that follows |
| `Extensions.SplitFromMaximalRun` | src/main.rs:38 | a run of letters bounded by non-letters or the ends of the line is exactly one token, placed between the tokens before it and the tokens after it (tokens are maximal runs, in input order) |
| `Extensions.SplitFromEmptyIff` | src/main.rs:66-69 | the token list is empty exactly when the line has no alphabetic character, the case where the caller prints "No file types specified." and stops |
| `Extensions.SplitFromSingleExample` | src/main.rs:59 | the prompt's example `png` gives `["png"]` |
| `Extensions.SplitFromListExample` | src/main.rs:60 | the prompt's example `jpg,png` gives `["jpg", "png"]` |
| `Extensions.SplitFromDigitExample` | src/main.rs:38 | digits are separators: `mp3` gives `["mp"]` |
| `Answers.GetLine` | src/main.rs:7-12 | consumes exactly one item when there is one; succeeds with that line's text exactly when the next item is a line; fails with "Unable to get line." when the input has ended and propagates a read error otherwise |
| `Answers.Prompt` | src/main.rs:19-23 | the prompt is the question followed by a six-character choice whose capitalised letter is the default: `Y` and `n` when the default is yes, `y` and `N` when it is no |
| `Answers.Ask` | src/main.rs:18-35 | the items the exchange leaves in the iterator are a suffix of the items it started with |
| `Answers.AskPrompts` | src/main.rs:19-25 | every prompt printed is the same text; one prompt is printed per item consumed, plus one when the input has ended, in which case nothing is left |
| `Answers.GetYesNo` | src/main.rs:13-36 | the loop returns exactly the answer, the remaining items, and the prompt sequence that `Ask` describes |
| `Answers.AskSkips` | src/main.rs:25-34 | lines that do not trim to y, Y, n or N are consumed and change neither the answer nor where the iterator ends up |
| `Answers.AskFirstStop` | src/main.rs:25-34 | the first item that is not skipped decides: y or Y gives true, n or N gives false, a read error gives that error; the iterator is left just after it |
| `Answers.AskRunsOut` | src/main.rs:8-10 | if every remaining line is skipped, the input runs out, "Unable to get line." propagates, nothing is left, and one more prompt than lines was printed |
| `Answers.AskAnswerIff` | src/main.rs:29-34 | the answer is true exactly when the first accepted line trims to y or Y, and false exactly when it trims to n or N |
| `Answers.AskErrorIff` | src/main.rs:25 | the answer is "Unable to get line." exactly when every remaining line is skipped, and a read error exactly when one is met before any accepted line |
| `Answers.AskIgnoresDefault` | src/main.rs:19-23 | the answer, the items consumed and the number of prompts are the same whether `default` is true or false |
| `Answers.AskBlankLine` | src/main.rs:27-28 | an empty or all-whitespace line does not select the default: it is consumed and the question is asked again |
| `Folders.GetFolders` | src/main.rs:41-47 | a dialog error propagates unchanged; one folder becomes a one-element list, several are passed on in order, a cancel gives the empty list; the list is empty exactly when the dialog was cancelled or returned no folder |

## Left out

- The native folder picker `nfd::open_pick_folder` is a foreign GUI call. Its outcome is an input of `Folders.GetFolders`.
- Printing, flushing stdout and locking stdin are console I/O. A failure to flush stdout (`?` on the flush in `get_yes_no`) is not modelled. The prompts `get_yes_no` prints are returned as a sequence of strings instead.
- How the byte stream is cut into lines (removing `\n` and `\r\n`, rejecting invalid UTF-8) belongs to the standard library's `Lines` iterator. The model starts from the items it yields.
- `real_main`'s prompt sequence, its folder re-pick loop, the "Press enter to exit" tail in `main`, and the target-extension read are interactive plumbing. Only their use of the tokenizer's empty result and of `get_folders`' empty list is reflected, in `Extensions.SplitFromEmptyIff` and `Folders.GetFolders`.
- File discovery and the conversion engine that launches the external converter are not part of this source file, so they are not modelled.
- `Text.IsAlpha`: matches `char::is_alphabetic` only below U+0100 and treats every higher character as non-alphabetic, because the full Unicode Alphabetic table is not encoded. Besides the three examples, only the no-overlap lemma `WhitespaceNotAlpha` depends on the choice; it also holds for the full Unicode tables, since no White_Space character is Alphabetic.
