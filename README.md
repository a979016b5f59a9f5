# mviplayer rename pipeline, modelled in Dafny

mviplayer files audio downloaded from BBC iPlayer. It walks the source paths and,
for every `.m4a` or `.mp4` file, reads the embedded tags and moves the file to
`DEST/<show>/s<disc> e<track> <title><ext>`. The show and the title come from the
album and title tags. Each tag string first goes through a user-supplied, ordered
list of regular-expression rename rules. The result is then sanitized down to
letters, digits and a few punctuation characters.

This project models that pipeline, which is the whole of `main.go` apart from
the command line and the filesystem calls:

- `foreign.dfy` (`Foreign`): the collaborators the pipeline does not implement.
  The Unicode letter/digit tables (`UnicodeTables`) and the regular-expression
  engine (`RegexEngine`: which sources compile, and replace-all) are values of
  function type that the pipeline receives as parameters.
  `UnicodeTables.WellFormed` states only facts that hold in every Unicode
  version: in the ASCII block the letters are exactly A-Z and a-z, and the
  digits are exactly 0-9.
- `sanitize.dfy` (`Sanitizer`): `sanitize` and `okRunes`. The method
  `Sanitize` is the builder loop. `Sanitized` is the filter it is proved
  against. The lemmas show what the filter keeps and drops.
- `rules.dfy` (`Rules`): `RenameRule` and `applyRules`. The method
  `ApplyRules` is the loop that reassigns the string. `Applied` gives its
  meaning: a left fold (`Fold`) when every rule is compiled, otherwise a panic
  at the first uncompiled rule.
- `load.dfy` (`RuleLoader`): `readRules`. Finding, reading and decoding the
  rules file are not modelled. Their outcome is the `RuleSource` parameter.
  `CompileRules` compiles each pattern in place, as the source's loop does.
  `LoadedAsWritten` is `readRules` as written. `Loaded`, and the methods
  `ReadRules` and `CompileRules` proved against it, are the corrected loader
  of the "## Findings" row: they differ from the code only after a JSON type
  mismatch, where they return the empty list instead of the partly decoded
  one.
- `paths.dfy` (`Paths`): the path helpers the renamer calls. `Base` and `Ext`
  work as `filepath.Base` and `filepath.Ext` do with `/` as the separator.
  `EqualFold` compares case-insensitively.
- `names.dfy` (`FileNames`): the `%02d` format (`Pad2`), the file name
  `FileName`, and a parser `ParseFileName` that reads a file name back.
- `renamer.dfy` (`Renamer`): the per-entry filter of `renamer` (`Classify`)
  and the name and path computed by `renameFile` (`RenameTarget`).
  `HandleEntry` puts them together for one visited entry.

Behaviour of the code worth noting:

- A rule-loading error is not fatal. `main` prints it and goes on with whatever
  list `readRules` returned (main.go:56-59).
- The destination directory is created even in dry-run mode (main.go:134). Only
  the rename itself is skipped (main.go:141-144).
- The rules file is looked up in the per-user configuration directory
  (main.go:168). The destination directory is used only in a log message.
- Both `.m4a` and `.mp4` are accepted (main.go:85).

## Model

| member | source | states |
|---|---|---|
| `Sanitizer.Sanitized` | main.go:151-159 | the sanitized string is never longer than the input, and every character in it is a letter, a digit or one of `` !#$%&'(),-= `` |
| `Sanitizer.Sanitize` | main.go:151-159 | the builder loop returns exactly `Sanitized(title)`: each safe character is appended in input order, and nothing else is |
| `Sanitizer.SanitizedConcat` | main.go:153-157 | sanitizing works one character at a time: sanitizing `a + b` equals sanitizing `a`, then `b`, and concatenating |
| `Sanitizer.SanitizedFixedPoint` | main.go:153-157 | a string made only of safe characters comes back unchanged |
| `Sanitizer.SanitizedIdempotent` | main.go:151-158 | sanitizing twice gives the same result as sanitizing once |
| `Sanitizer.SanitizedUnchangedIff` | main.go:153-157 | sanitizing leaves a string unchanged if and only if every character in it is safe |
| `Sanitizer.SanitizedCounts` | main.go:153-157 | each safe character occurs as often in the output as in the input; each unsafe character does not occur at all (nothing is inserted or replaced) |
| `Sanitizer.SanitizedIsSubsequence` | main.go:153-157 | the output is a subsequence of the input, so the original order is kept |
| `Sanitizer.SanitizedIsLargestSafeSubsequence` | main.go:153-157 | no all-safe subsequence of the input is longer than the output, and any all-safe subsequence of the same length is the output: the output is exactly the safe characters of the input |
| `Sanitizer.NoSeparatorOrDot` | main.go:148-157 | with the Unicode tables, the output never contains `/` or `.` |
| `Sanitizer.SanitizeExample` | main.go:148-159 | `Doctor/Who: Ep.1!` sanitizes to `DoctorWho Ep1!` |
| `Rules.Fold` | main.go:112-121 | the compiled rules applied as a left fold, each `ReplaceAllString` taking the previous one's output (the meaning of the loop, proved in `ApplyRules` and the fold lemmas) |
| `Rules.Applied` | main.go:111-123 | the outcome of `applyRules`: the fold when every rule is compiled, otherwise the panic at the first uncompiled rule |
| `Rules.FirstUncompiled` | main.go:112-116 | the index the panic reports is that of an uncompiled rule, and every rule before it is compiled |
| `Rules.ApplyRules` | main.go:111-123 | the loop's outcome is `Applied(rules, x)`; it panics if and only if some rule is uncompiled, and then at the first one; an uncompiled rule is never skipped |
| `Rules.AppliedEmpty` | main.go:111-123 | an empty rule list returns its input |
| `Rules.FoldAppend` | main.go:112-122 | left fold: applying `a + b` gives the same result as applying `a` and then `b` to that output |
| `Rules.AppliedAppend` | main.go:111-123 | the fold law including panics: a panic in `a` happens before any rule of `b` runs, and a panic in `b` is reported at its index in `a + b` |
| `Rules.AppliedInSequence` | main.go:112-121 | two rules compose in sequence: the second rewrites what the first produced |
| `RuleLoader.CompileAll` | main.go:189-194 | compilation fails if and only if some pattern does not compile, and then at the first such index; on success every rule is compiled from its own record, in file order |
| `RuleLoader.LoadedAsWritten` | main.go:167-199 | `readRules` as written: a configuration-path error, a missing file, a decode error and a compile error each give their result; after a JSON type mismatch it returns the partly decoded, uncompiled list with the error |
| `RuleLoader.Loaded` | main.go:167-199 | the corrected loader of "## Findings": the same as `LoadedAsWritten` except that a JSON type mismatch gives the empty list |
| `RuleLoader.CompileRules` | main.go:189-198 | the in-place compile loop returns what the corrected loader returns for the decoded records: every rule compiled in order, or the empty list with the first failing index |
| `RuleLoader.ReadRules` | main.go:167-199 | the corrected loader as a method: for every way of finding, reading and decoding the file, it returns exactly the `Loaded` result |
| `RuleLoader.LoadedOutcomes` | main.go:167-199 | for the corrected loader: a missing file gives no rules and no error; every error comes with the empty list; without an error every rule is compiled from its record, in the order of the file (the code as written breaks the second clause after a type mismatch, see "## Findings") |
| `RuleLoader.LoadedRejectsBadPattern` | main.go:189-194 | one pattern that does not compile rejects the whole list, and the error names the first failing index (the corrected and as-written loaders agree here) |
| `RuleLoader.LoadedNeverPanics` | main.go:114-116 | applying rules returned by the corrected loader never panics |
| `RuleLoader.AsWrittenTypeMismatchPanics` | main.go:185-188 | as written, a type mismatch in the file returns one uncompiled rule together with the error, and applying that list panics at index 0 |
| `Paths.ExtOfEnding` | main.go:84 | the extension of a path ending in `.xyz` (no further dot or separator) is `.xyz` |
| `Paths.ExtSuffixOfBase` | main.go:80-84 | a non-empty extension is a suffix of the base name |
| `Paths.EqualFoldLower` | main.go:85 | case-insensitive equality holds exactly when the lower-cased strings are equal |
| `Paths.Base` | main.go:80 | `filepath.Base`: the last element of a path, ignoring trailing separators; never empty, and without a separator unless it is `/` |
| `Paths.Ext` | main.go:84 | `filepath.Ext`: a suffix of the path that is empty or starts at the last dot of the last element, with no separator in it |
| `Paths.EqualFold` | main.go:85 | case-insensitive comparison of two strings, folding ASCII letters |
| `FileNames.Pad2` | main.go:131 | the verb `%02d`: a non-negative number zero-padded to two digits, a negative one as `-` and its digits |
| `FileNames.FileName` | main.go:131 | the name `s<disc> e<track> <title><ext>` with both numbers formatted by `%02d` |
| `FileNames.Pad2Spec` | main.go:131 | `%02d` of a non-negative number is all digits, at least two of them, exactly two below 100, and reads back as the number |
| `FileNames.FileNameRoundTrip` | main.go:131 | `ParseFileName` recovers disc, track, title and extension from the file name when the numbers are non-negative, the title has no dot, and the extension is empty or starts with a dot |
| `FileNames.FileNameExample` | main.go:131 | disc 1, track 3, title `The Beginning`, extension `.m4a` give `s01 e03 The Beginning.m4a` |
| `Renamer.RenameTarget` | main.go:125-132 | the destination of one file: title and album through the rules, then the sanitizer; the album names the show directory; disc, track, title and the path's extension name the file; a panic if a rule is uncompiled |
| `Renamer.Classify` | main.go:72-90 | the filter of the walk callback: a walk error is passed on; directories, `.DS_Store`, `Icon\r` and files whose extension is not `.m4a` or `.mp4` in any case are skipped; the rest are processed |
| `Renamer.HandleEntry` | main.go:69-108 | one visited entry: the filter, then the tags (unreadable tags end the entry), then the destination or the panic |
| `Renamer.RenameTargetPanicsIff` | main.go:125-130 | computing a destination panics if and only if the rule list holds an uncompiled rule |
| `Renamer.RenameTargetStaysInShow` | main.go:129-132 | the destination is `dest`/`show`/`name`, where neither show nor name contains `/` or is `.` or `..`, so the file lands directly in the show directory |
| `Renamer.RenameTargetNameRoundTrip` | main.go:126-131 | the file name reads back as the disc, the track, the rule-transformed and sanitized title, and the source file's extension |
| `Renamer.RenameTargetExample` | main.go:125-132 | track 3 of disc 1, `The Beginning` from `My Show`, no rules, `.m4a` gives `dest`/`My Show`/`s01 e03 The Beginning.m4a` |
| `Renamer.ClassifyProcessIff` | main.go:72-90 | an entry is processed if and only if the walk reported no error, it is not a directory, and its lower-cased extension is `.m4a` or `.mp4` |
| `Renamer.ArtifactIsNotAudio` | main.go:80-85 | a path whose base name is `.DS_Store` or `Icon\r` never has an audio extension, so the artifact test never decides the outcome on its own |
| `Renamer.ClassifySkipsPicture` | main.go:84-90 | `cover.jpg` in any directory is skipped |
| `Renamer.ClassifyWithoutWalkError` | main.go:72-90 | without a walk error, an entry is either processed or skipped |
| `Renamer.HandleEntryWithLoadedRules` | main.go:69-108 | with rules from the corrected loader, handling an entry never panics, and a move happens only for an audio file that is not a directory, into a show directory directly under the destination |
| `Renamer.AsWrittenHandleEntryPanics` | main.go:56-59 | with the list the code as written returns after a JSON type mismatch, the first `.m4a` file with readable tags panics at rule 0 |

## Left out

- Filesystem I/O is not modelled: `filepath.WalkDir`, `os.Open`, `os.Stat`,
  `os.ReadFile`, `os.MkdirAll`, `os.Rename` and the per-user configuration
  lookup. The lookup and read outcomes are the `RuleSource` parameter. An
  unreadable file or undecodable tags become `tags == None` in `HandleEntry`.
  What happens after a move is computed (directory creation, the rename, and
  their errors) is not modelled.
- Decoding tags is outside the model. `Tags` holds the decoded title, album,
  track and disc, with a missing number read as 0.
- JSON decoding is outside the model. `Decoded` is the decoder's outcome: a
  parsed list, a syntax error, or a type mismatch with the partly filled list.
  A read error other than "does not exist" (`ReadFailed`) is not reported:
  the bytes read before it are decoded like a complete file (no bytes at all
  decode as a syntax error).
- Regular-expression semantics are outside the model. `RegexEngine.compiles`
  and `RegexEngine.replaceAll` are unconstrained.
- The Unicode tables are outside the model, apart from the ASCII facts in
  `UnicodeTables.WellFormed`.
- Invalid UTF-8 is not modelled. Strings are sequences of Unicode scalar
  values. Go decodes an invalid byte as U+FFFD, which is neither a letter nor
  a digit, so the sanitizer would drop it anyway.
- Paths.EqualFold folds only ASCII letters. It agrees with Unicode simple case
  folding for `.m4a` and `.mp4`, because `m`, `p` and `a` have no case
  partners outside ASCII. It is weaker in general, because folds such as
  the Kelvin sign to `k` are not modelled.
- `Base` and `Ext` assume `/` is the only separator and that paths have no
  volume names.
- `filepath.Join` path cleaning is not modelled. For example, it drops an
  empty show component. The destination is kept as the triple
  (`dest`, `show`, `name`).
- The command line is not modelled: flags, usage text, the argument-count
  check, the destination check, and the loop over source paths.
  Verbose/dry-run printing is not modelled either, including the report of
  which rule changed a string. None of these affect a computed value.
- Disc and track numbers are unbounded integers. Go's `int` is 64 bits wide,
  which does not matter for tag values.

## Findings

| source | as written | input that shows it | evidently intended | confidence | as-written member | corrected member |
|---|---|---|---|---|---|---|
| main.go:185-188 | On a JSON type mismatch, `json.Unmarshal` fills in what it can and returns an error. `readRules` then returns the partly decoded rules, whose `FromRE` is nil, together with that error. `main` prints the error and goes on with those rules (main.go:56-59), so the first file renamed panics in `applyRules` (main.go:114-116). | a rules file `[{"from": 1, "to": "x"}]` | any decode error gives the empty list, as a compile error does, so no uncompiled rule ever reaches `applyRules` | medium, not executed | `RuleLoader.AsWrittenTypeMismatchPanics` | `RuleLoader.LoadedNeverPanics` |
