# HackerRank string exercises, modelled in Dafny

This project models the four string functions of `Hackerrank_solutions.py`:

- `swap_case(s)` walks the string and builds the result one character at a
  time. An upper-case character is lowered and every other character is
  raised.
- `split_and_join(line)` is `'-'.join(line.split())`. It cuts the line at runs
  of whitespace, drops the empty pieces and glues the tokens with one `-`.
- `mutate_string(string, position, character)` is
  `string[:position] + character + string[position+1:]`.
- `wrap(string, max_width)` checks `len(string) > 0 and 0 < max_width < len(string)`.
  When the check passes, a `while` loop cuts the string into consecutive
  pieces of `max_width` characters (the last may be shorter) and the pieces
  are joined with newlines. Otherwise it returns a fixed "Invalid input. ..."
  message.

Files, one module each:

- `ascii.dfy` (`Ascii`): ASCII letter case: `IsUpper`, `IsLower`, `ToLower`, `ToUpper`.
- `strings.dfy` (`Strings`): Python's `sep.join(parts)` (`Join`) and
  `s.split(sep)` (`SplitOn`), with the lemmas that make them inverses.
- `swap_case.dfy` (`SwapCase`): the loop of `swap_case` as a method. It is
  proved against the specification function `SwappedCase`.
- `split_and_join.dfy` (`SplitAndJoin`): `str.split()` as the tokenizer
  `Split`, and `SplitAndJoin`. A line is described by a *layout*: whitespace
  gaps woven around tokens (`Weave`, `IsLayout`). `Split` returns exactly the
  tokens of any layout of the line (`SplitOfLayout`), and every line has a
  layout built from its own tokens (`Gaps`).
- `mutate_string.dfy` (`Mutation`): `MutateString`, using Python's clamping
  slice semantics for non-negative bounds.
- `wrap.dfy` (`TextWrap`): the loop of `wrap` as a method. It is proved
  against `Wrapped`, which is defined from the piece list `Chunks`.

## Model

| member | source | states |
|---|---|---|
| `Ascii.IsUpper` | Hackerrank_solutions.py:5 | definition of `ch.isupper()` on ASCII: the character is one of `'A'..'Z'` |
| `Ascii.ToLower` | Hackerrank_solutions.py:6 | lowering turns an upper-case letter into the lower-case letter at the same place in the alphabet, and leaves every other character alone |
| `Ascii.ToUpper` | Hackerrank_solutions.py:8 | raising turns a lower-case letter into the upper-case letter at the same place in the alphabet, and leaves every other character alone |
| `SwapCase.SwapChar` | Hackerrank_solutions.py:5-8 | one character swapped: the result is upper case exactly when the input was lower case, and vice versa, and a letter keeps its place in the alphabet; a non-letter is unchanged |
| `SwapCase.SwappedCase` | Hackerrank_solutions.py:3-9 | the result has one character per input character (same length) |
| `SwapCase.SwapCase` | Hackerrank_solutions.py:2-9 | the loop that appends `ch.lower()` or `ch.upper()` to `res` returns exactly `SwappedCase(s)` |
| `SwapCase.SwappedCaseConcat` | Hackerrank_solutions.py:4-8 | swapping case works character by character: it distributes over concatenation |
| `SwapCase.SwappedCaseAt` | Hackerrank_solutions.py:4-8 | at every index an upper-case input is lowered, anything else is raised, a non-letter is kept, and the output is upper case exactly where the input was lower case |
| `SwapCase.SwapCharTwice` | Hackerrank_solutions.py:5-8 | swapping one character twice gives it back |
| `SwapCase.SwappedCaseInvolution` | Hackerrank_solutions.py:4-8 | swapping the case of a string twice gives back the original string |
| `SplitAndJoin.IsSpace` | Hackerrank_solutions.py:20 | definition of the whitespace `line.split()` cuts at: the ASCII characters 9-13, 28-31 and space |
| `SplitAndJoin.Word` | Hackerrank_solutions.py:20 | the word at the front of a string is a whitespace-free prefix that is maximal (it ends at the end or at whitespace) |
| `SplitAndJoin.Split` | Hackerrank_solutions.py:20 | every token `line.split()` returns is non-empty and whitespace-free |
| `SplitAndJoin.Gaps` | Hackerrank_solutions.py:20 | every line is whitespace gaps woven around its own tokens, with non-empty gaps between neighbouring tokens |
| `SplitAndJoin.SplitSkipsSpace` | Hackerrank_solutions.py:20 | leading whitespace does not change the tokens |
| `SplitAndJoin.SplitOfLayout` | Hackerrank_solutions.py:20 | for any layout of tokens and whitespace gaps, splitting the woven line gives back exactly those tokens, in order |
| `SplitAndJoin.SplitEmpty` | Hackerrank_solutions.py:20 | a line yields no token exactly when it is empty or all whitespace |
| `SplitAndJoin.SplitAndJoin` | Hackerrank_solutions.py:18-20 | `'-'.join(line.split())`: the output contains no whitespace, and it is `""` exactly when the line is empty or all whitespace |
| `SplitAndJoin.JoinNoSpace` | Hackerrank_solutions.py:20 | joining whitespace-free tokens with `-` gives a whitespace-free string |
| `SplitAndJoin.SplitAndJoinEnds` | Hackerrank_solutions.py:20 | a non-empty output begins with the first token and ends with the last, so it starts or ends with `-` only if that token does |
| `SplitAndJoin.SplitAndJoinOfLayout` | Hackerrank_solutions.py:20 | whatever whitespace lays out a line, the output is its tokens in order with exactly one `-` between neighbours |
| `SplitAndJoin.SplitAndJoinRoundTrip` | Hackerrank_solutions.py:20 | when no token holds `-`, cutting the output at `-` gives back `line.split()` |
| `Strings.Join` | Hackerrank_solutions.py:20 | `sep.join(parts)` (also line 62): no parts give `""`; otherwise the length is the parts' total length plus one separator between each two neighbours |
| `Strings.SplitOn` | Hackerrank_solutions.py:20 | Python's `s.split(sep)` with a one-character separator. Line 20 itself calls `split()` with no separator; SplitOn is the inverse of the `'-'.join` there (and of `'\n'.join` at line 62), used to read joined output back: it returns at least one piece, one more than there are separators, and no piece holds the separator |
| `Strings.SplitOnJoin` | Hackerrank_solutions.py:20 | splitting `sep.join(parts)` at `sep` gives the parts back when no part holds `sep` |
| `Strings.JoinSplitOn` | Hackerrank_solutions.py:62 | joining the pieces of `s.split(sep)` with `sep` gives `s` back |
| `Strings.JoinEnds` | Hackerrank_solutions.py:20 | a joined string starts with the first part and ends with the last part |
| `Strings.JoinChars` | Hackerrank_solutions.py:20 | every character of a joined string is the separator or a character of some part |
| `Strings.JoinSeparatorAt` | Hackerrank_solutions.py:62 | with two parts or more the separator stands right after the first part |
| `Mutation.Before` | Hackerrank_solutions.py:34 | definition of the slice `string[:position]` for `position >= 0`: a bound past the end stops at the end |
| `Mutation.From` | Hackerrank_solutions.py:34 | definition of the slice `string[position+1:]` for a non-negative bound: a bound past the end gives `""` |
| `Mutation.MutateString` | Hackerrank_solutions.py:33-35 | for a position inside the string, the result is the prefix before the position, then `character`, then the suffix after the position; for a position at or past the end, the result is `string + character` |
| `Mutation.MutateOneChar` | Hackerrank_solutions.py:34 | with one character and a position inside the string, the length is kept, the character is at the position and every other index is unchanged |
| `Mutation.MutateIsUpdate` | Hackerrank_solutions.py:34 | replacing one character is the sequence update `s[position := c]` |
| `Mutation.MutateRestore` | Hackerrank_solutions.py:34 | mutating the position back to its old character restores the string |
| `Mutation.MutateTwice` | Hackerrank_solutions.py:34 | a second mutation at the same position overrides the first |
| `TextWrap.Accepts` | Hackerrank_solutions.py:54 | definition of the guard `len(string) > 0 and 0 < max_width < len(string)` |
| `TextWrap.Chunks` | Hackerrank_solutions.py:55-60 | the pieces the loop appends, front to back; each is non-empty and at most `max_width` long |
| `TextWrap.Wrapped` | Hackerrank_solutions.py:54-64 | wrap's result: the pieces joined by newlines, or the message. It is the message exactly when the string is empty, or `max_width <= 0`, or `max_width >= len(string)`; `max_width == len(string)` is rejected too |
| `TextWrap.Wrap` | Hackerrank_solutions.py:50-64 | the guard and the `while start < len(string)` loop, with `end` clamped to the length, return exactly `Wrapped(s, max_width)`: the pieces joined by newlines, or the message |
| `TextWrap.ChunkAt` | Hackerrank_solutions.py:55-59 | piece i is `s[i*w : (i+1)*w]`, cut short at the end of the string, and it starts inside the string |
| `TextWrap.ChunksConcat` | Hackerrank_solutions.py:55-60 | the pieces concatenate back to the string |
| `TextWrap.ChunksWidths` | Hackerrank_solutions.py:56-59 | every piece but the last is exactly `max_width` long; the last is 1 to `max_width` long |
| `TextWrap.ChunksCount` | Hackerrank_solutions.py:55-60 | the number of pieces k is the ceiling of `len / max_width`: `(k-1)*w < len <= k*w` and `k == (len + w - 1) / w` |
| `TextWrap.CeilDiv` | Hackerrank_solutions.py:55-60 | arithmetic helper behind the piece count: a count k with `(k-1)*w < n <= k*w` equals `(n + w - 1) / w` |
| `TextWrap.MessageHasNoNewline` | Hackerrank_solutions.py:64 | the rejection message contains no newline |
| `TextWrap.WrapLines` | Hackerrank_solutions.py:59-62 | on accepted input without newlines, cutting the output at newlines gives back the pieces |

## Left out

- The `if __name__ == '__main__'` blocks (Hackerrank_solutions.py:11-14, 23-26, 38-42, 66-70). They only read from the console, parse with `int(...)` and print.
- The `import textwrap` at Hackerrank_solutions.py:48. The module is never called.
- Week_6_task manager_ys.py, the task tracker, is not part of this model.
- `Ascii.ToLower`, `Ascii.ToUpper`, `SwapCase.SwapChar`: only ASCII letters have a case here. Python's full Unicode case mapping is not modelled, so a non-ASCII letter stays unchanged in the model. In Python, `'é'` would be raised and `'ß'.upper()` is two characters long, which breaks length preservation and the round trip.
- `SplitAndJoin.IsSpace`: the whitespace that `str.split()` uses is modelled by its characters below 128 (tab, line feed, vertical tab, form feed, carriage return, 0x1C-0x1F and space). Python also splits at Unicode spaces such as U+00A0 and U+2003.
- `Mutation.MutateString`: `position` is a `nat`. Python's negative indices, which count from the end, are not modelled.
- Python's dynamic typing (for example a `max_width` that is not an `int`) is not modelled. The parameters have fixed types.
