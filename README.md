# tvsh command splitter in Dafny

tvsh is a tiny interactive shell. `main` reads a line with `fgets` into a
4096-byte buffer and hands it to `command()`. `command()` walks the
NUL-terminated line with a pointer: it skips whitespace (`isspace`) and
copies each maximal run of other characters into a new `MAX_ARG_SIZE`-byte
buffer, stored in the next slot of a local `argv` of `MAX_ARG_COUNT`
pointers. It then stores the NULL terminator. A blank line returns 0. Any
other line is run in a forked child with `execvp`, and the parent returns
the status `wait` reports.

The project has two modules:

- `Lexer` (`lexer.dfy`) is the pure specification of the words of a line.
  - `IsSpace` is the C-locale `isspace` set: space and `'\t'` to `'\r'`.
  - `Words` is the reference splitter. `WordsFrom` and `WordEnd` are the same walk, driven by an index the way the C code drives its pointer.
  - Lemmas characterise `Words`: its words joined reproduce the line without whitespace; the line is exactly its words separated by whitespace gaps, and that separation is unique; a blank line has no words; a trailing newline adds no word.
- `Shell` (`shell.dfy`) is the imperative splitter.
  - The two inner loops and the outer loop are `while` loops. They fill a 64-slot `argv` array with freshly allocated 64-character buffers, proved against `Words`.
  - `Command` is the dispatch on the result. The status `wait` reports is a parameter.
  - Two lemmas give lines that `fgets` can deliver but that overrun the fixed buffers; see "Findings".

`command()` only reads its line, so `cmd` is a `seq<char>` holding the
whole buffer. Every pointer position `cmd + p` is the index `p`.

## Model

| member | source | states |
|---|---|---|
| Lexer.IsSpace | tvsh.c:45-46 | the characters `isspace` accepts in the C locale: space, `'\t'`, `'\n'`, `'\v'`, `'\f'` and `'\r'`, the same test that the copy loop at tvsh.c:53 uses |
| Lexer.WordLen | tvsh.c:53-54 | the copy loop stops at the first whitespace character or at the end; everything before that point is non-whitespace |
| Lexer.Words | tvsh.c:44-57 | every word found is non-empty and contains no whitespace character |
| Lexer.WordEnd | tvsh.c:53-54 | from a word start, the pointer ends on the first whitespace character or the end of the line, after only non-whitespace characters |
| Lexer.WordEndLen | tvsh.c:53-54 | the index where the copy loop stops is the start index plus the length of the run it copies |
| Lexer.WordsFrom | tvsh.c:44-57 | the outer loop's walk with an index in place of the pointer: a whitespace character is stepped over, and a non-whitespace character starts a word that runs to `WordEnd` |
| Lexer.WordsFromSuffix | tvsh.c:44-57 | the index-driven walk from position p finds exactly the words of the rest of the line from p on |
| Lexer.WordsWord | tvsh.c:53-56 | a non-empty run of non-whitespace characters followed by whitespace or the end is taken as one whole word |
| Lexer.WordsSkip | tvsh.c:45-46 | leading whitespace of any length contributes no word |
| Lexer.WordsConcat | tvsh.c:44-56 | the words, joined in order, are the line with every whitespace character removed |
| Lexer.WordsEmptyIff | tvsh.c:44-49 | a line has no words if and only if it is empty or all whitespace |
| Lexer.TrailingSpaceIgnored | tvsh.c:45-46 | a whitespace character appended to a line, like the newline `fgets` keeps, changes none of its words |
| Lexer.WordsLayout | tvsh.c:44-57 | every line equals gap, word, gap, ..., word, gap: the gaps are all whitespace, inner gaps are non-empty, and each word is a non-empty maximal non-whitespace run |
| Lexer.WordsUnique | tvsh.c:44-57 | conversely, any such separation of a line into gaps and words has exactly its words as the result of `Words` |
| Shell.Line | tvsh.c:44 | the characters the loop reads are those before the first NUL of the buffer; none of them is NUL |
| Shell.ScansLine | tvsh.c:44 | a buffer holding a NUL holds its `Line` followed by that NUL |
| Shell.ScansIsLine | tvsh.c:44 | conversely, a line that a buffer holds before a NUL, with no NUL of its own, is that buffer's `Line` |
| Shell.Fits | tvsh.c:8-9 | the capacities: fewer than 64 words, so that the NULL store at tvsh.c:59 hits a slot of `argv`, and each word shorter than 64 characters, so that the NUL store at tvsh.c:56 stays inside its buffer |
| Shell.SkipSpaces | tvsh.c:45-46 | the pointer stops on the first non-whitespace character (the NUL at the latest), and the words still ahead are unchanged |
| Shell.CopyWord | tvsh.c:51-56 | a fresh 64-character buffer holds the word at the pointer followed by a NUL, and the pointer is left just past the word |
| Shell.Split | tvsh.c:41-59 | for a line whose words fit, `count` is the number of words, `argv[k]` is a separate buffer holding word k and a NUL, and `argv[count]` is NULL; `argv` and every word buffer are newly allocated |
| Shell.SplitChecked | tvsh.c:41-59 | it succeeds if and only if the words fit; on success `argv` holds the words of the line as `Split` states; otherwise nothing is stored and `argv[0]` is NULL; `argv` and every word buffer are newly allocated |
| Shell.Command | tvsh.c:38-75 | it forks if and only if the words fit and there is at least one; a blank line returns 0 without forking; a forking call returns the wait status; a line that does not fit returns `EXIT_FAILURE`; `argv` and its buffers are newly allocated |
| Shell.SpacedAsWords | tvsh.c:44-57 | the line `"a a a ... "` with n words splits into n words |
| Shell.LongWordOverflows | tvsh.c:9 | a line that `fgets` accepts (shorter than 4096 characters, with no NUL) holds a single word of exactly 64 characters, so it does not fit; `command()` stores that word's NUL at index 64 of a 64-byte buffer |
| Shell.ManyWordsOverflow | tvsh.c:8 | a line that `fgets` accepts (shorter than 4096 characters, with no NUL) holds exactly 64 words, so it does not fit; `command()` stores the NULL in slot 64 of a 64-slot `argv` |

## Left out

- `main`'s prompt, its `fgets` loop and end-of-input handling (tvsh.c:14-36) are I/O. The buffer `command()` receives is a parameter. `MAX_CMD_SIZE` bounds only the lines of the overflow lemmas.
- The fork, `execvp`, `perror` and `wait` calls (tvsh.c:64-70) are process creation and OS calls. The status `wait` reports is a parameter of `Command`. A failing `fork` and the child's own exit path are not modelled.
- The `free` loop (tvsh.c:72-73) is not modelled, since Dafny has no deallocation. The word buffers are fresh arrays.
- Slots of `argv` past the NULL terminator are never read by the source, which leaves them uninitialised. The model allocates `argv` with every slot NULL.
- `isspace` on a negative `char` (undefined in C) is not modelled. Characters are Dafny characters, and only the C-locale whitespace set counts as space.
- Split: the precondition `Fits` excludes lines that `command()` accepts but overruns. This behaviour is undefined in C and is described under "Findings".
- Command: it calls the checked splitter. A line whose words do not fit is refused with `EXIT_FAILURE` instead of being run after a buffer overrun. The source has no such branch.

## Findings

| source | as written | input that shows it | evidently intended | confidence | as-written member | corrected member |
|---|---|---|---|---|---|---|
| tvsh.c:51-56 | the copy loop bounds `j` only by whitespace and NUL, so a word of 64 or more characters writes past the 64-byte buffer | `aaaa...a` (64 `a`s) then `\n` | words longer than 63 characters are rejected before copying | not executed | Shell.LongWordOverflows | Shell.SplitChecked |
| tvsh.c:41-59 | the outer loop bounds `i` only by the end of the line, so 64 or more words write the NULL terminator past the 64-slot `argv` | `a a a ... a ` (64 words) then `\n` | lines with more than 63 words are rejected before splitting | not executed | Shell.ManyWordsOverflow | Shell.SplitChecked |
