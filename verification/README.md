# Namelist and streams readers of MPAS-Analysis, in Dafny

MPAS-Analysis reads two kinds of MPAS model configuration file:

- **Namelist files.** Fortran namelists hold lines such as
  `config_dt = '00:30:00'`. `convert_namelist_to_dict` matches each line
  against one regular expression and builds a dictionary from key to raw
  value string. `NameList` gives access to that dictionary.
- **Streams files.** These are XML files whose root element holds stream
  elements (`<stream>`, `<immutable_stream>`) that carry attributes.
  `StreamsFile.read` returns an attribute of the first child of the root
  whose `name` attribute is the given name. The tag is not checked. `StreamsFile.readpath` turns a filename-template
  attribute into an absolute glob pattern:
  - it rewrites the seven date placeholders (`$Y $M $D $S $h $m $s`) into
    runs of `[0-9]` classes of the field's width;
  - it then prefixes the streams file's directory to a relative result.

This project models those operations as pure functions and proves what they
compute.

- `wrappers.dfy`: `Option` and `Result`.
- `seqs.dfy`: a shared fact about sequence concatenation.
- `path_template.dfy` (module `PathTemplate`): placeholder substitution.
  - `ReplaceAll` models Python's `str.replace`, and `ReplaceInOrder` models
    the reader's loop of one `replace` per table entry.
  - `Substitute` is a single left-to-right pass over the template.
  - The sequential loop is proved equal to the single pass for every
    iteration order of the table. The rest of the module proves what the
    single pass produces:
    - no placeholder survives;
    - a leading `/` is kept;
    - the result is the rendering of the template read as placeholders and
      literal characters;
    - the glob pattern matches exactly the names that fill each placeholder
      with as many digits as its field has.
- `streams.dfy` (module `Streams`):
  - A parsed streams document is the ordered sequence of the root's
    children, whatever their tag, each a map from attribute name to value.
  - `Read` is the first-match lookup. `ReadPath` looks the template up and
    resolves it against `absdir`.
- `namelist.dfy` (module `Namelist`):
  - `ParseLine` computes the two capture groups of the line pattern
    `^\s*(.*?)\s*=\s*['"]*(.*?)['"]*\s*\n` directly.
  - `RegexMatch` states declaratively what a match of that pattern is,
    including the choices its greedy and lazy operators make. The two are
    proved equivalent.
  - `SplitLines` cuts a file into the lines that iterating over it yields.
  - `Convert` folds the lines into the dictionary, so that the last
    assignment of a key wins.
  - `Get` and `GetBool` are the accessors.

Modelling choices:

- **Comments.** The pattern knows nothing of Fortran `!` comments. A
  comment line without `=` does not match and is skipped. A commented-out
  assignment such as `! a = b` matches, and its key is `! a`
  (`Namelist.CommentedAssignment`).
- **Python version.** The behaviour modelled is Python 3's: `str` patterns,
  `str.isspace()`, and text-mode reading with universal newlines.
- **`\s`.** It is the set of characters for which Python's `str.isspace()`
  holds, because the pattern is a `str` pattern.
- **`findall`.** The pattern is anchored with `^` without the multiline flag,
  and a line holds a newline only as its last character. So `findall`
  returns at most one match per line, and `ParseLine` returns that match or
  nothing.
- **Missing template attribute.** `readpath` on a stream or attribute that
  does not exist gets `None` from `read`. The first `path.replace(...)` then
  looks up `replace` on `None` and raises `AttributeError`; `str.replace` is
  never reached. The model returns `Failure(NoSuchAttribute(...))` instead of
  excluding the case by a precondition.
- **Where the code differs from what a reader might expect, the model
  follows the code.**
  - `getbool` is true when the raw value contains `True` or `true`. The test
    is case-sensitive, so `TRUE` reads as false.
  - The value's quotes are not stripped as one matching pair. Any run of `'`
    and `"` characters after the `=` and its spaces is dropped. So is the
    longest run of quotes followed by whitespace before the newline.
    `'abc"` therefore reads as `abc`.

## Model

| member | source | states |
|---|---|---|
| Streams.FindStream | mpas_analysis/shared/io/namelist_streams_interface.py:99-101 | the scan stops at the first child of the root, in document order and whatever its tag, whose `name` attribute equals the requested name; it finds none exactly when no child has that name |
| Streams.Read | mpas_analysis/shared/io/namelist_streams_interface.py:96-102 | the result is present exactly when the first stream with that name has the attribute, and it is that stream's value; a missing stream or attribute gives an absent result, not an error |
| Streams.ReadIgnoresLaterStreams | mpas_analysis/shared/io/namelist_streams_interface.py:99-102 | once a stream with the name exists, streams after it are never consulted, even when the first one lacks the attribute (first match wins, duplicates are unreachable) |
| Streams.ReadSkipsOtherStreams | mpas_analysis/shared/io/namelist_streams_interface.py:99-101 | streams with other names in front of the sought one do not change the result |
| Streams.ResolvePath | mpas_analysis/shared/io/namelist_streams_interface.py:121-128 | an absolute template becomes its substituted form unchanged; a relative one becomes `absdir + "/" +` its substituted form; the result is absolute when `absdir` is, and holds no placeholder unless `absdir` does |
| Streams.AnchorKeepsNoToken | mpas_analysis/shared/io/namelist_streams_interface.py:124-126 | joining the directory and a substituted path with `/` creates no placeholder |
| Streams.ReadPath | mpas_analysis/shared/io/namelist_streams_interface.py:104-128 | fails, naming the stream and attribute, exactly when the lookup finds no value; otherwise yields the resolution of the first matching stream's template, absolute whenever the streams directory is |
| Streams.ResolvedPatternMeaning | mpas_analysis/shared/io/namelist_streams_interface.py:104-128 | for a directory and template without glob metacharacters, the resolved pattern matches exactly the file names that fill the template's placeholders with digits of the right widths, below `absdir` for a relative template |
| PathTemplate.ReplacementTable | mpas_analysis/shared/io/namelist_streams_interface.py:113-119 | the replacement for each of the seven placeholders is the table's string: four digit classes for `$Y`, five for `$S`, two for the others |
| PathTemplate.ClassesShape | mpas_analysis/shared/io/namelist_streams_interface.py:113-119 | a replacement of width n is 5n characters long, holds no `$`, and starts with `[` and ends with `]` |
| PathTemplate.ReplacementMatchesWidth | mpas_analysis/shared/io/namelist_streams_interface.py:113-119 | each replacement, as a glob, matches exactly the strings of that field's width made only of decimal digits |
| PathTemplate.ReplaceAll | mpas_analysis/shared/io/namelist_streams_interface.py:122 | `str.replace` scans left to right: a string shorter than the pattern comes back unchanged, and an occurrence at the start is replaced by the replacement text |
| PathTemplate.ReplaceAllDollarFree | mpas_analysis/shared/io/namelist_streams_interface.py:122 | `replace` of a placeholder leaves a string without `$` unchanged |
| PathTemplate.ReplaceAllSkipsDollarFree | mpas_analysis/shared/io/namelist_streams_interface.py:122 | `replace` of a placeholder copies a `$`-free prefix and continues on the rest |
| PathTemplate.ReplaceInOrder | mpas_analysis/shared/io/namelist_streams_interface.py:121-122 | the loop of one `replace` per table entry leaves a template without `$` unchanged; `SequentialIsSinglePass` states what it does otherwise |
| PathTemplate.ReplaceOneMore | mpas_analysis/shared/io/namelist_streams_interface.py:122 | one more `replace` of a placeholder after a pass over some placeholders is the pass over those and that one: replacements never create or hide an occurrence |
| PathTemplate.ReplaceInOrderAfter | mpas_analysis/shared/io/namelist_streams_interface.py:121-122 | a sequence of `replace` calls after a pass equals one pass over all the letters involved |
| PathTemplate.SequentialIsSinglePass | mpas_analysis/shared/io/namelist_streams_interface.py:121-122 | the loop of `replace` calls, in any order covering all seven placeholders (repetitions allowed), equals the single left-to-right substitution |
| PathTemplate.ReplaceOrderIrrelevant | mpas_analysis/shared/io/namelist_streams_interface.py:121-122 | the dictionary's iteration order does not affect the resulting path |
| PathTemplate.SourceOrderIsSinglePass | mpas_analysis/shared/io/namelist_streams_interface.py:113-122 | the loop in the order the table is written equals the single pass |
| PathTemplate.SubstituteDollarFree | mpas_analysis/shared/io/namelist_streams_interface.py:121-122 | a template without `$` is returned unchanged |
| PathTemplate.SubstituteConcat | mpas_analysis/shared/io/namelist_streams_interface.py:121-122 | substitution works piece by piece: cutting the template anywhere except between a `$` and its letter commutes with it |
| PathTemplate.SubstituteRemovesTokens | mpas_analysis/shared/io/namelist_streams_interface.py:121-122 | no placeholder is left after substitution, not even one that a `$` and a letter would form across a replacement |
| PathTemplate.SubstituteKeepsRoot | mpas_analysis/shared/io/namelist_streams_interface.py:121-124 | substitution keeps a leading `/` and never creates one, so the absolute-path test sees the template's own absoluteness |
| PathTemplate.SpellTokenize | mpas_analysis/shared/io/namelist_streams_interface.py:108-110 | reading a template as placeholders and literal characters loses nothing: spelling the pieces gives the template back |
| PathTemplate.TokenizeSpell | mpas_analysis/shared/io/namelist_streams_interface.py:108-110 | a canonical sequence of pieces is read back from its own spelling |
| PathTemplate.TokenizeCanonical | mpas_analysis/shared/io/namelist_streams_interface.py:108-110 | the pieces read from any template are canonical: known letters only, no literal `$` before a placeholder letter |
| PathTemplate.SubstituteRendersPieces | mpas_analysis/shared/io/namelist_streams_interface.py:108-122 | the substituted path is the template's pieces rendered in order, each placeholder as its digit classes and each literal as itself |
| PathTemplate.ClassesMatch | mpas_analysis/shared/io/namelist_streams_interface.py:113-119 | n digit classes followed by a pattern match exactly n digits followed by a match of that pattern |
| PathTemplate.SubstituteMeaning | mpas_analysis/shared/io/namelist_streams_interface.py:108-122 | for a template without glob metacharacters, the substituted pattern matches exactly the names that fill every placeholder with as many digits as its field has |
| PathTemplate.LiteralPrefixMatch | mpas_analysis/shared/io/namelist_streams_interface.py:126 | a directory prefix without `[` matches only itself, so the prefixed pattern matches the directory, `/`, then a match of the rest |
| Namelist.ParseLine | mpas_analysis/shared/io/namelist_streams_interface.py:26-32 | a line yields an assignment exactly when it ends in a newline and contains `=`; any other line (blank, a comment without `=`, a section delimiter, a last line without newline) is ignored; a commented-out assignment such as `! a = b` is not ignored and adds an entry whose key starts with `!` |
| Namelist.CommentedAssignment | mpas_analysis/shared/io/namelist_streams_interface.py:26-32 | a line starting with a Fortran `!` that the pattern matches yields a key starting with `!`: commented-out assignments enter the dictionary under that key |
| Namelist.SpansOf | mpas_analysis/shared/io/namelist_streams_interface.py:26 | whenever a line parses, the computed positions form a match of the pattern, with the key and value as its groups |
| Namelist.RegexMatchParses | mpas_analysis/shared/io/namelist_streams_interface.py:26 | any match of the pattern, with its greedy and lazy choices, has the groups that the parse returns |
| Namelist.ParseLineIffRegexMatch | mpas_analysis/shared/io/namelist_streams_interface.py:26 | the parse returns a key and value exactly when the pattern matches the line with those two groups |
| Namelist.AssignmentRoundTrip | mpas_analysis/shared/io/namelist_streams_interface.py:26 | a line `key = value`, unquoted or between a pair of `'` or `"`, with a key free of `=`, newlines and surrounding whitespace, and a value free of newlines and end quotes and, when unquoted, of surrounding whitespace, reads back as that key and value |
| Namelist.SplitLines | mpas_analysis/shared/io/namelist_streams_interface.py:27-28 | iterating over a file yields no line exactly when the file is empty |
| Namelist.SplitLinesConcat | mpas_analysis/shared/io/namelist_streams_interface.py:27-28 | the lines iteration yields, put back together, are the file |
| Namelist.SplitLinesAreLines | mpas_analysis/shared/io/namelist_streams_interface.py:27-28 | each line is non-empty with a newline at most at its end, and every line but the last ends in a newline |
| Namelist.SplitLinesAppend | mpas_analysis/shared/io/namelist_streams_interface.py:27-28 | the lines of a file cut after a newline are the lines of the two parts |
| Namelist.Fold | mpas_analysis/shared/io/namelist_streams_interface.py:30-32 | after the last line's assignment its key holds its value |
| Namelist.FoldKeys | mpas_analysis/shared/io/namelist_streams_interface.py:24-32 | a key is in the dictionary exactly when some line assigned it |
| Namelist.FoldValues | mpas_analysis/shared/io/namelist_streams_interface.py:28-32 | a key holds the value of its last assignment: a later line for the same key overwrites an earlier one |
| Namelist.FoldAppend | mpas_analysis/shared/io/namelist_streams_interface.py:28-32 | folding two runs of lines gives the first run's dictionary overridden by the second's |
| Namelist.Convert | mpas_analysis/shared/io/namelist_streams_interface.py:24-32 | the dictionary's keys are exactly the keys of the matching lines, and each maps to the value of its last assignment |
| Namelist.ConvertNamelist | mpas_analysis/shared/io/namelist_streams_interface.py:16-36 | the dictionary read from a file holds exactly the keys its lines assign, each with the value of its last assignment |
| Namelist.ConvertNamelistAppend | mpas_analysis/shared/io/namelist_streams_interface.py:16-36 | the namelist of a file made of two parts, the first ending in a newline, is the first part's namelist overridden by the second's |
| Namelist.Get | mpas_analysis/shared/io/namelist_streams_interface.py:58-65 | `get` and `nml[key]` return the stored raw string, and fail with a key error exactly when the key is absent |
| Namelist.ContainsIsSubstring | mpas_analysis/shared/io/namelist_streams_interface.py:74 | Python's `in` on strings holds exactly when the pattern occurs as a contiguous substring |
| Namelist.Contains | mpas_analysis/shared/io/namelist_streams_interface.py:74 | Python's `in` on strings finds a pattern at the start of the string and never finds one longer than the string |
| Namelist.GetBool | mpas_analysis/shared/io/namelist_streams_interface.py:73-77 | true exactly when the raw value contains `True` or `true` as a substring, false for any other text; fails only on an absent key |

## Left out

- **File input.** Opening and reading files, and the XML parsing done by
  `lxml` (lines 27, 89-90), are not modelled.
  - The namelist file is its text.
  - The streams document is the sequence of all children of its root, each
    as its attribute map, whatever its tag: an `<immutable_stream>` is found
    like a `<stream>`. A child without a `name` attribute, such as an XML
    comment, never matches.
- **Text-mode newline translation.** Python 3 turns `\r\n` and a lone `\r`
  into `\n` when it reads a file in text mode. The model starts from the
  translated text.
- **Attribute access `nml.key`** (lines 53-55). Python calls `__getattr__`
  only when normal attribute lookup fails. So `nml.fname`, `nml.nml`, the
  method names and the dunder names give the `NameList` object's own
  attributes, not entries of the dictionary. For every other key it is
  `Get`, but attribute lookup is not modelled.
- **Path syntax.** Paths are POSIX: `IsAbsolute` is `os.path.isabs` on
  POSIX, true exactly when the path starts with `/`. On Windows `isabs` also
  accepts drive-letter and UNC forms, and those are not modelled.
- **The streams directory.** `os.path.dirname(os.path.abspath(fname))` at
  line 94 needs the process's working directory. `absdir` is therefore a
  field of `StreamsFile`, given by the caller.
- **`ReadOnlyDict`** (lines 33-34). The immutability wrapper is not
  modelled, because a Dafny `map` is already immutable. `ReadOnlyDict` is
  not part of this model.
- **`getint` and `getfloat`** (lines 67-71). They apply Python's `int()` and
  `float()` to the raw string. Numeral parsing and floating point are not
  modelled.
- **Glob expansion.** The caller expands the pattern `readpath` returns.
  `DigitGlobMatches` covers only the fragment of glob syntax that the
  replacements produce: literal characters and `[0-9]` classes. Templates
  with other glob metacharacters are passed through unchanged, but no lemma
  states what they match.
- **Worked examples on literal paths and lines**, such as
  `files/$Y-$M-$D.nc` under `/data/run`. They are not stated as separate
  lemmas: they follow from `Streams.ResolvePath`,
  `PathTemplate.SubstituteRendersPieces` and `Namelist.AssignmentRoundTrip`,
  which hold for every input.
- **Writing files.** The docstrings speak of writing namelist and streams
  files, but the code implements no writer.
- Namelist.ParseLine: requires `IsLine`, i.e. no newline before the last
  character. This is what iterating over a text file guarantees. Whole
  files go through `SplitLines`, which establishes it.
