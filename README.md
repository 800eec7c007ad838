# Single-atom grep matcher

A model, in Dafny, of the core of a small `grep -E` clone. The program reads one
pattern atom and one input line and reports whether the line contains a match.
The model has two parts, one per source file:

- `parse_pattern` (module `Grep`, `main.dfy`). It takes at most two characters
  of the pattern and turns them into one `RegexPattern` atom, or an error.
- `RegexPattern::is_contained_in` (module `Regex`, `regex.dfy`). It decides
  whether an atom occurs somewhere in a haystack.

Both functions walk their string with Rust's `str::chars()` iterator. Module
`Chars` (`chars.dfy`) models that iterator as a `CharStream` class with a
cursor. `Next` hands out one character per call and keeps answering `None` at
the end. `ParsePattern` and the `Digit` scan advance a `CharStream` step by step,
the same way the source advances its iterator.

Each operation is proved against a specification function. `Parse` states the
accepted pattern language by the shape of the pattern. `Contained` states
containment as "some index of the haystack holds a character the atom accepts".
The lemmas prove the listed properties about these two functions. `Render` is
the partner of `Parse`: it gives the canonical text of an atom, and parsing that
text returns the atom.

The code accepts far less than a full regular-expression engine. It has no
groups, alternation, quantifiers, anchors, bracket classes, `\w` or `.`. It also
rejects every multi-atom pattern. The model follows the code: `\w` parses to
`Char('w')`, `ab` is an "unhandled pattern" error, and the haystack is matched
verbatim, without trimming a trailing newline.

## Model

| member | source | states |
|---|---|---|
| `Grep.ParsePattern` | src/main.rs:7-30 | advancing a character stream, the parser returns exactly `Parse(pattern)`; a lone backslash fails early with `TrailingBackslash`, and leftover characters give `UnhandledPattern` |
| `Grep.ParseCases` | src/main.rs:9-29 | `""` gives `Empty`; `\d` gives `Digit`; `\x` with `x != 'd'` gives `Char(x)`; one non-backslash `c` gives `Char(c)`; `\` alone is a trailing-backslash error; length ≥ 2 without a leading backslash, or length ≥ 3 with one, is an unhandled-pattern error |
| `Grep.ParseSucceedsIff` | src/main.rs:9-29 | parsing succeeds if and only if the pattern is empty, is one non-backslash character, or is a backslash followed by exactly one character |
| `Grep.Render` | src/main.rs:9-22 | the canonical text of an atom is at most two characters long |
| `Grep.ParseRender` | src/main.rs:9-29 | parsing the canonical text of any atom returns that atom, so every atom can be written as a pattern |
| `Grep.RenderInjective` | src/main.rs:9-29 | two atoms with the same canonical text are equal |
| `Grep.ParseCanonical` | src/main.rs:9-29 | for every accepted pattern, the canonical text of its atom parses to the same atom and is no longer than the pattern |
| `Regex.ScanDigits` | src/regex.rs:13-23 | the `Digit` loop answers true if and only if some haystack character is in `'0'..='9'`; when true, it stopped at a digit with no digit before it |
| `Regex.IsContainedIn` | src/regex.rs:8-26 | the result is true if and only if `Contained(p, haystack)`: always for `Empty`, when some index holds `c` for `Char(c)`, when some index holds a digit for `Digit` |
| `Regex.EmptyHaystack` | src/regex.rs:8-26 | the empty haystack contains `Empty` and no other atom; `Char` and `Digit` never match it |
| `Regex.ContainedConcat` | src/regex.rs:8-26 | an atom is contained in `a + b` if and only if it is contained in `a` or in `b` |
| `Regex.ContainedMonotone` | src/regex.rs:8-26 | if an atom is contained in `h`, it is contained in `a + h + b` for any `a` and `b` |
| `Regex.NewlineOfLineIsFound` | src/regex.rs:10-12 | the haystack is not trimmed, so `Char('\n')` is found in any line that still ends in its newline |

## Left out

- `main` (src/main.rs:33-57): argument checking for `-E`, reading the input line, printing and process exit codes are I/O and are not modelled. The caller is assumed to pass the pattern and the line verbatim.
- The exact error message texts: errors are the tagged values `TrailingBackslash` and `UnhandledPattern(pattern)`.
- UTF-8 decoding: strings are sequences of Unicode scalar values (Dafny `char`), which is what `str::chars()` yields; byte-level encoding is not modelled.
- `haystack.contains(c)` (Rust's `str::contains` with a `char` pattern) is modelled as membership `c in haystack`, not as the library's own search loop.
