# GloVe vector loader, modelled in Dafny

This project models `load_glove_vectors` in `load_glove.py`. The function reads a
GloVe embedding file line by line. Each line holds a word followed by the numbers
of its vector, separated by whitespace. The function builds two structures: the
set of words and a table (a Python dict) from word to vector. A word that appears
again replaces its earlier vector, so the last write wins. A blank line, or a
field that is not a number, raises an exception, so the whole load fails and
returns nothing.

The model has three modules:

- `Wrappers` (`wrappers.dfy`): `Option` and `Result`.
- `Tokenize` (`tokenize.dfy`): `line.strip().split()` as pure functions.
  - `IsSpace` is Python's `str.isspace()` on ASCII characters: codes 9 to 13, 28 to 31, and 32.
  - `Strip` is `TrimRight(TrimLeft(s))`.
  - `Split` cuts a string at whitespace runs.
  - `Fields(line)` is `Split(Strip(line))`.
  - The lemmas show what `split()` yields and that stripping first changes nothing.
- `GloveLoader` (`load_glove.dfy`): the loader.
  - The file is given as its sequence of lines.
  - The conversion of one field to a 64-bit float is a parameter `parse: string -> Option<V>` over an opaque value type `V`. It returns `None` where numpy would raise.
  - `LoadGloveVectors` is the loop of the source. It updates a local `set<string>` and `map<string, seq<V>>` one line at a time. It returns `Failure` at the first bad line.
  - It is proved equal to the specification function `Loaded`. `Loaded` is `LoadWith` (a fold over the lines) applied to the per-line reader `ParseLine`.
  - The lemmas about `LoadWith` hold for any line reader. The lemmas about `Loaded` specialise them to `ParseLine`.

`Loaded` is a function, so loading the same lines twice gives equal results.

Two behaviours of the code are easy to get wrong:

- A line that holds only a word (`"solo\n"`) does not fail. `line[1:]` is empty and `np.array([], dtype=np.float64)` is an empty vector (load_glove.py:56). `TokenOnlyLineLoads` and `TokenOnlyLineMapsToEmpty` prove that the word maps to the empty vector.
- Only a line with no field at all fails on `line[0]` (load_glove.py:53-54). A line with fewer numbers than other lines loads, with a shorter vector. The vector length is not checked against any dimension.

## Model

| member | source | states |
|---|---|---|
| Tokenize.WordLengthIsMaximalRun | load_glove.py:53 | the first field's length is that of the longest whitespace-free prefix: every character before it is a non-space, and the one at it, if any, is whitespace |
| Tokenize.SplitYieldsWords | load_glove.py:53 | every field `split()` yields is non-empty and contains no whitespace |
| Tokenize.TrimLeftDropsLeadingSpace | load_glove.py:53 | left stripping drops exactly the maximal whitespace prefix: what it drops is all whitespace and what it keeps is a suffix that is empty or starts with a non-space |
| Tokenize.TrimRightDropsTrailingSpace | load_glove.py:53 | right stripping drops exactly the maximal whitespace suffix |
| Tokenize.StripDropsOuterSpace | load_glove.py:53 | `strip()` yields a slice of the line with only whitespace around it; the slice neither starts nor ends with whitespace; it is empty exactly when the line is blank |
| Tokenize.SplitSkipsLeadingSpace | load_glove.py:53 | leading whitespace yields no field |
| Tokenize.SplitIgnoresTrailingSpace | load_glove.py:53 | trailing whitespace yields no field |
| Tokenize.SplitEmptyIffBlank | load_glove.py:53-54 | the field list is empty exactly when the line is blank or whitespace-only |
| Tokenize.WordLengthStopsAtSpace | load_glove.py:53 | a first word ends at the first whitespace character, whatever follows it |
| Tokenize.SplitAtSpaceRun | load_glove.py:53 | a whitespace run of any length between two texts separates their fields: the fields of the whole are the left text's followed by the right text's (runs collapse) |
| Tokenize.SplitWord | load_glove.py:53 | a whitespace-free non-empty text is its own only field |
| Tokenize.SplitJoinWords | load_glove.py:53 | splitting recovers exactly any list of fields joined with single spaces |
| Tokenize.SplitKeepsAllText | load_glove.py:53 | the fields, concatenated, are the line with its whitespace removed: no character is lost or reordered |
| Tokenize.FieldsAreSplit | load_glove.py:53 | `line.strip().split()` has the same fields as `line.split()` |
| Tokenize.TrimRightKeepsFields | load_glove.py:53 | right stripping before splitting changes no field |
| Tokenize.FirstFieldIsFirstRun | load_glove.py:53-54 | the key `line[0]` is exactly the first non-whitespace run: it contains no whitespace, it starts after the leading whitespace and stops at the next whitespace or at the end of the line |
| GloveLoader.ParseVector | load_glove.py:56 | converting the remaining fields succeeds exactly when every field converts; the vector then has one element per field, each the conversion of that field, in order; otherwise the first field that does not convert is named |
| GloveLoader.LineEntry | load_glove.py:53-56 | one line fails with "no fields" exactly when it is blank; it yields an entry exactly when it has a field and all later fields convert; the entry's word is the first field and its vector is the conversion of the other fields, in order; otherwise the error names the first field that does not convert |
| GloveLoader.LoadGloveVectors | load_glove.py:48-57 | the loop computes exactly `Loaded`: the words and table after the last line, or the error of the first bad line with no tables; on success the word set equals the table's key set; an empty file gives an empty set and an empty table |
| GloveLoader.FailureIsFinal | load_glove.py:52-54 | once a prefix of the lines fails, the whole load fails with that same error |
| GloveLoader.FailsAtFirstBadLine | load_glove.py:52-56 | the load succeeds exactly when every line reads; a failure names the first line that does not read, with that line's own error |
| GloveLoader.WordsAreKeys | load_glove.py:50-56 | after a successful load the word set equals the table's key set, and a word is in it exactly when some line's entry carries it |
| GloveLoader.LastEntryWins | load_glove.py:55-56 | when line `i` is the last line whose entry carries word `w`, the table maps `w` to line `i`'s vector |
| GloveLoader.WordsOnlyGrow | load_glove.py:55-56 | entries are only added: every prefix of a successful load succeeds, and its words and keys are among the final ones |
| GloveLoader.BlankLineFailsLoad | load_glove.py:53-54 | a blank or whitespace-only line anywhere makes the whole load fail; if no earlier line fails, the error is "no fields" at that line |
| GloveLoader.BadNumberFailsLoad | load_glove.py:53-56 | a field after the word that does not convert, on any line, makes the whole load fail; if no earlier line fails, the error is at that line and names a field, at or before that column, that does not convert |
| GloveLoader.WordsAreFirstFields | load_glove.py:53-55 | after a successful load the word set equals the table's key set, and a word is in it exactly when it is the first field of some line |
| GloveLoader.LastLineWins | load_glove.py:53-56 | when line `i` is the last line whose first field is `w`, the table maps `w` to a vector whose length is line `i`'s field count minus one; each element is the conversion of the corresponding field, in order |
| GloveLoader.TokenOnlyLineLoads | load_glove.py:56 | a line holding only a word (with any trailing whitespace) loads, and the word maps to the empty vector |
| GloveLoader.TokenOnlyLineMapsToEmpty | load_glove.py:53-56 | in any file that loads, a line whose only field is `w`, with no later line keyed `w`, leaves `w` mapped to the empty vector |
| GloveLoader.RepeatedWordKeepsLastVector | load_glove.py:52-56 | for `cat 1.0 2.0`, `dog 3.0 4.0`, `cat 5.0 6.0` (any two distinct words and any six numeric fields) the words are exactly `cat` and `dog`; `cat` maps to the converted `5.0, 6.0` and `dog` to `3.0, 4.0` |
| GloveLoader.TwoNumberLine | load_glove.py:53-56 | a line `x y z` plus a newline, where `y` and `z` convert, yields the entry for `x` with the vector of the conversions of `y` and `z` |

## Left out

- Opening the file and building its path from `os.getcwd()` (load_glove.py:6-9,49): this is I/O. The file is given as its sequence of lines. Splitting the file into lines is not modelled. A missing file therefore has no counterpart in the model.
- The module-level call at import time (load_glove.py:59): this is process start-up, not logic.
- The float64 conversion done by numpy (load_glove.py:56): it is a foreign call and floating point. It is the parameter `parse`, a partial function to an opaque type. Which field numpy reports, and its message text, are not modelled: the model names the first field that does not convert.
- The commented-out `cosine_similarity` and `complete_analogy` (load_glove.py:12-46): never run, and floating point.
- Non-ASCII whitespace: Python's `str.split()` and `str.strip()` also treat some non-ASCII characters (such as U+0085 and U+00A0) as whitespace. `IsSpace` covers only the ASCII characters for which `str.isspace()` holds.
- The order of the Python dict (load_glove.py:56): a word keeps its first insertion position when its vector is replaced. The model's `map` has no order, and no code of the module reads that order.
- Exception types: the source raises `IndexError` for a blank line and `ValueError` for a bad number. The model returns the `LoadError` values `NoFields` and `NotANumber`, with the index of the line.
