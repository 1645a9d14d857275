# Care FE plugin scaffolder, modelled in Dafny

The scaffolder creates a new Care front-end plugin from a template directory.
`initProject(projectName, port, targetDir)` works in this order:

1. It checks that the template exists and that the target does not.
2. It copies the template into the target with a filter. The filter drops installed packages and the lock file.
3. It walks the copy and replaces the four placeholders `{{PROJECT_NAME}}`, `{{PROJECT_NAME_KEBAB}}`, `{{PROJECT_NAME_SNAKE}}` and `{{PORT}}` in every file. It does not enter `node_modules` or `.git` directories.
4. If the copy or the walk throws, it removes the target and throws again.

The helpers in `src/utils.js` spell the name in kebab and snake case and validate the project name and the port.

The model has five modules:

- `Text`: the JavaScript string operations the source relies on. These are ASCII `toLowerCase`, the `\s` class, `includes`, `endsWith`, a literal global `replace`, path joining and `toString` of integers.
- `Utils`: `toKebabCase`, `toSnakeCase`, `validateProjectName` and `validatePort` from `src/utils.js`. These are pure functions with lemmas about them.
- `Placeholders`: the replacement table of `initProject` and `replacePlaceholders`. The table is applied as a method with a loop, proved against the function `ApplyAll`.
- `FileSystem`: the disk as a value, `Tree`, which maps each path (a sequence of names) to a directory or a file with its text.
  - A `FileSystem` object holds the current tree, which its methods update in place. It also holds a fixed table of faults, saying which reads, writes, listings, copies and removals fail and with which error code.
  - It provides the operations of `fs-extra` that the scaffolder uses: `pathExists`, `readFile`, `writeFile`, `readdir`, `copy` with a filter, and `remove`. Each is specified by a function on the tree.
- `Init`: `processFile`, `processDirectory`, the copy filter and `initProject`, as methods that change the `FileSystem`.
  - Each method is proved against a function of the old tree.
    - `Processed` gives the tree after the walk.
    - `WalkFails` says when the walk throws.
    - `Warned` gives the files the walk warns about.
    - `InitEnds` relates the tree before a run to its outcome and the tree after it.
  - Lemmas then state what a run leaves:
    - the template is untouched;
    - on success the target mirrors the filtered template, with placeholders replaced outside `node_modules` and `.git`;
    - after a failure nothing is left at the target unless its removal fails.

## Model

| member | source | states |
|---|---|---|
| Text.LowerFixesExactlyUppercaseFree | src/utils.js:41 | `name !== name.toLowerCase()` holds exactly when the name has a letter in A-Z (both directions) |
| Text.LowerConcat | src/utils.js:9 | `toLowerCase` works character by character: it distributes over concatenation |
| Text.ReplaceAll | src/init.js:16 | replacing a token by itself leaves the text as it was |
| Text.ReplaceAllWithoutToken | src/init.js:16 | a global replace leaves text without the token unchanged |
| Text.ReplaceAllAtToken | src/init.js:16 | brace-free text before a token is copied, and the token right after it is replaced |
| Text.ReplaceAllJoin | src/init.js:16 | every occurrence is replaced, not only the first: any pieces that do not hold the token, braces included, joined by a token that cannot overlap itself, come back as the same pieces joined by the value |
| Text.JoinHasNoToken | src/init.js:15-16 | pieces without `u`, joined by a value or a placeholder that cannot take part in an occurrence of `u`, hold no `u`, so the later replace of `u` finds nothing |
| Text.ReplaceAllLeavesNoOccurrence | src/init.js:16 | when the inserted value cannot take part in an occurrence of `u`, and `u` is the token or absent, no `u` is left after the replace |
| Text.JoinContainsComponent | src/init.js:90-92 | a substring of one component is a substring of the joined relative path |
| Text.JoinEndsWithLast | src/init.js:90-93 | the joined relative path ends with whatever its last component ends with |
| Text.NatToString | src/init.js:103 | `toString` of a natural number is decimal digits without a leading zero |
| Text.IntToString | src/init.js:103 | `port.toString()` is non-empty, brace-free and holds a digit |
| Utils.SplitCamel | src/utils.js:7 | the `([a-z])([A-Z])` rewrite only inserts: the result is no shorter, and each of its characters is the delimiter or comes from the input |
| Utils.SplitCamelInsertsAtEveryBoundary | src/utils.js:7 | the global `([a-z])([A-Z])` rewrite puts the delimiter at every lower-upper pair and nowhere else |
| Utils.CollapseRuns | src/utils.js:8 | the run rewrite (and its snake twin, line 19) only shrinks: the result is no longer, and each of its characters is the delimiter or comes from the input |
| Utils.CollapseRunsLeavesNoRunChar | src/utils.js:8 | after `.replace(/[\s_]+/g, "-")` (and the snake twin) no character of the class is left |
| Utils.CollapseRunsWithoutRunChar | src/utils.js:19 | text with no character of the class passes the run rewrite unchanged |
| Utils.Convert | src/utils.js:6-9 | the whole chain leaves no capital letter and no character of the run class (line 19 for snake case) |
| Utils.ToKebabCase | src/utils.js:5-10 | the kebab spelling has no capital letter, no white space and no `_` |
| Utils.ToSnakeCase | src/utils.js:16-21 | the snake spelling has no capital letter, no white space and no `-` |
| Utils.NormalizedIsFixed | src/utils.js:6-9 | text with no capital letter and no run character is a fixed point of the whole chain |
| Utils.KebabIdempotent | src/utils.js:5-10 | `toKebabCase(toKebabCase(s)) == toKebabCase(s)` |
| Utils.SnakeIdempotent | src/utils.js:16-21 | `toSnakeCase(toSnakeCase(s)) == toSnakeCase(s)` |
| Utils.ConvertSplitsAtDelimiter | src/utils.js:6-9 | for every two texts, the chain of either style applied to `a + delimiter + b` is the chain of `a`, the delimiter, then the chain of `b` (lines 17-20 for snake case) |
| Utils.KebabKeepsHyphens | src/utils.js:6-9 | for every two texts, `toKebabCase(a + "-" + b) == toKebabCase(a) + "-" + toKebabCase(b)`: a hyphen is never dropped or merged |
| Utils.KebabKeepsDoubleHyphen | src/utils.js:6-9 | for every two texts, a run `--` is kept as it is: the run rewrite does not collapse hyphens |
| Utils.SnakeKeepsUnderscores | src/utils.js:17-20 | for every two texts, `toSnakeCase(a + "_" + b) == toSnakeCase(a) + "_" + toSnakeCase(b)` |
| Utils.KebabOnlyLowercases | src/utils.js:6-9 | text without a case boundary, white space or `_` is only lowercased by `toKebabCase` |
| Utils.SnakeOnlyLowercases | src/utils.js:17-20 | text without a case boundary, white space or `-` is only lowercased by `toSnakeCase` |
| Utils.KebabOfMyPlugin | src/utils.js:3 | `toKebabCase("MyPlugin") == "my-plugin"` |
| Utils.SnakeOfMyPlugin | src/utils.js:14 | `toSnakeCase("MyPlugin") == "my_plugin"` |
| Utils.ConvertKeepsAlphanumeric | src/utils.js:5-21 | a name with a letter or digit gives spellings with a lowercase letter or digit |
| Utils.ConvertKeepsBraceFree | src/utils.js:5-21 | a name without braces gives spellings without braces |
| Utils.Utf16Length | src/utils.js:33 | `name.length` counts UTF-16 code units: at least one and at most two per character |
| Utils.ValidateProjectName | src/utils.js:28-55 | a name accepted is non-empty and uses only `[a-zA-Z0-9._-]`; a refusal carries a non-empty message |
| Utils.ValidateFollowsRuleTable | src/utils.js:28-55 | the result is `true` when no check fails, and otherwise the message of the first check that fails |
| Utils.NameRulesInOrder | src/utils.js:29-52 | the checks run in the order: blank, length, leading `.`/`_`, casing, characters, reserved names |
| Utils.EarlyRulesFail | src/utils.js:29-39 | a blank, over-long or hidden name gets the message of the first of those checks it fails |
| Utils.LateRulesDecide | src/utils.js:41-54 | once the first three checks pass, casing, then characters, then reserved names decide |
| Utils.ValidNameShape | src/utils.js:28-55 | a name is valid exactly when it has 1 to 214 characters, all in `[a-zA-Z0-9._-]`, does not start with `.` or `_`, is lowercase or starts with a capital, and is not a reserved name in any casing |
| Utils.ValidNameIsBraceFree | src/utils.js:45-47 | a valid name holds no brace |
| Utils.LengthBoundary | src/utils.js:33-35 | a 214-character name passes and a 215-character name gets the length message |
| Utils.EmptyNames | src/utils.js:29-31 | the empty name and a name of white space get the empty message |
| Utils.HiddenName | src/utils.js:37-39 | a name starting with `.` gets the leading-character message |
| Utils.CamelCaseName | src/utils.js:41-43 | `"myPlugin"` gets the casing message, before the character check |
| Utils.NameWithSlash | src/utils.js:45-47 | a name with `/` gets the character message |
| Utils.ReservedNamesRefused | src/utils.js:49-52 | a reserved name in any casing that passes the casing check is refused, and the message quotes the name as given |
| Utils.NodeModulesRefused | src/utils.js:49-52 | `"node_modules"` and `"Node_Modules"` are both refused |
| Utils.ValidPascalName | src/utils.js:28-55 | `"MyPlugin"` is accepted |
| Utils.ParseInt | src/utils.js:63 | `parseInt(port, 10)` is `NaN` exactly when, after leading white space and one optional sign, no digit follows |
| Utils.SkipSpaces | src/utils.js:63 | `parseInt` drops exactly the leading white space |
| Utils.DigitPrefix | src/utils.js:63 | `parseInt` reads the longest run of digits |
| Utils.ParseIntRoundTrip | src/utils.js:63 | `parseInt` reads back the decimal text of any integer, whatever non-digit text follows |
| Utils.ParseIntSkipsSpaces | src/utils.js:63 | leading white space does not change what `parseInt` reads |
| Utils.NoNumberAtFront | src/utils.js:63-67 | text that starts with neither white space, a sign nor a digit is `NaN` |
| Utils.ValidatePort | src/utils.js:62-74 | a port is accepted exactly when it reads as a number in 1024..65535, and gets the number message exactly when it does not read as a number |
| Utils.PortOfNumber | src/utils.js:62-74 | an integer written in decimal is accepted exactly when it lies in 1024..65535 |
| Utils.PortBoundaries | src/utils.js:69-71 | 1024 and 65535 are accepted; 1023 and 65536 get the range message |
| Utils.LettersAreNotAPort | src/utils.js:65-67 | `"abc"` gets `"Port must be a number"` |
| Utils.EmptyIsNotAPort | src/utils.js:65-67 | the empty text gets `"Port must be a number"` |
| Utils.SignAloneIsNotAPort | src/utils.js:65-67 | a sign with no digit after it gets `"Port must be a number"` |
| Utils.PortWithSurroundingText | src/utils.js:63-73 | a port in range with leading white space and trailing non-digits is accepted |
| Placeholders.Replacements.Entries | src/init.js:99-104 | the table lists the four tokens, all non-empty, in the order of the object literal |
| Placeholders.ForProject | src/init.js:99-104 | the `{{PORT}}` value `port.toString()` reads back as the port under `parseInt` |
| Placeholders.ReplacePlaceholders | src/init.js:13-19 | the loop leaves the content with every entry applied in table order as a global replace |
| Placeholders.ApplyAllStep | src/init.js:15-16 | each entry replaces every occurrence of its token in what the entries before it left |
| Placeholders.NoPlaceholderNoChange | src/init.js:13-19 | content without any of the four tokens comes back unchanged |
| Placeholders.NameTokenNotInLongerTokens | src/init.js:100-102 | `{{PROJECT_NAME}}` occurs in neither `{{PROJECT_NAME_KEBAB}}` nor `{{PROJECT_NAME_SNAKE}}` |
| Placeholders.KebabTokenGetsKebab | src/init.js:99-104 | the kebab placeholder becomes the kebab spelling, although the name token is replaced first |
| Placeholders.SnakeTokenGetsSnake | src/init.js:99-104 | the snake placeholder becomes the snake spelling |
| Placeholders.SingleNamePlaceholder | src/init.js:13-19 | a file whose only placeholder is `{{PROJECT_NAME}}`, whatever other text and braces it holds, gets the name at every place and is otherwise unchanged, when the name cannot complete a later placeholder |
| Placeholders.SingleNamePlaceholderBraceFree | src/init.js:13-19 | the same for any name when the file and the name hold no brace |
| Placeholders.SingleKebabPlaceholder | src/init.js:13-19 | a file whose only placeholder is `{{PROJECT_NAME_KEBAB}}` gets the kebab value at every place and is otherwise unchanged: the name step, which runs first, does not touch it |
| Placeholders.ManifestGetsKebabName | template/src/manifest.ts:3-9 | for a valid name with a lowercase letter or a digit, the manifest keeps all its text and `plugin` becomes `toKebabCase(name)` |
| Placeholders.NoTokenSurvives | src/init.js:13-19 | when no value can complete a token, no token is left in the result |
| Placeholders.ValidNameLeavesNoToken | src/init.js:99-104 | for a valid name with a lowercase letter or digit, and any port, no token is left in any file |
| Placeholders.UppercaseNameCanCompleteToken | src/init.js:13-19 | the valid name `"NAME"` turns `{{PROJECT_{{PROJECT_NAME}}}}` into a fresh `{{PROJECT_NAME}}` |
| FileSystem.FileSystem.PathExists | src/init.js:73 | `pathExists` is true exactly when the path is in the tree |
| FileSystem.FileSystem.ReadFile | src/init.js:26 | `readFile` returns the file's text, or ENOENT, EISDIR or the fault's code |
| FileSystem.FileSystem.WriteFile | src/init.js:28 | `writeFile` puts the text at a path whose parent is a directory, creating the file if needed, or fails with EISDIR, ENOENT or the fault's code and changes nothing |
| FileSystem.FileSystem.ReadDir | src/init.js:45 | `readdir` lists each child of the directory once with its kind, or fails with ENOENT, ENOTDIR or the fault's code |
| FileSystem.FileSystem.Copy | src/init.js:87-96 | the tree becomes `CopyTree`; the copy succeeds exactly when it is not refused and no visited entry fails |
| FileSystem.FileSystem.Remove | src/init.js:123-125 | `remove` takes away the path and all below it, or fails and changes nothing |
| FileSystem.CopyKeepsExisting | src/init.js:87-96 | a copy into a well-formed tree changes no entry that was there before |
| FileSystem.CopyAddsBelowDestination | src/init.js:87-96 | every new entry is a missing ancestor of the target, or lies below the target with the content of the entry at the same relative path below the source |
| FileSystem.CopyPlaces | src/init.js:87-96 | every entry that arrives is at its relative path below the target, with its content |
| FileSystem.CopyAddsNothingInsideSource | src/init.js:87-96 | a copy that is not refused adds no entry at or below its source |
| FileSystem.CopiedFromRoot | src/init.js:87-96 | if anything arrives, the source itself arrives |
| FileSystem.InsideMeansPresent | src/init.js:87-96 | a copy that leaves anything below the target has made the target |
| Init.ProcessFile | src/init.js:24-35 | the file gets the substituted text when the read and the write succeed and is unchanged otherwise; the warning is given exactly when an error other than EISDIR was caught |
| Init.ProcessEntry | src/init.js:48-56 | one entry of the loop throws exactly when its part of the walk fails; on success the files of that part are processed and warned about, and on failure the error is one of that part's listing errors and only its files may have changed |
| Init.ProcessedNodeKeepsKind | src/init.js:24-35 | `processFile` neither creates nor deletes an entry, and does not change its kind |
| Init.ProcessedNodeOnError | src/init.js:29-34 | a failed read or write leaves the file as it was; otherwise the file holds the substituted text |
| Init.ProcessDirectory | src/init.js:40-58 | the walk throws exactly when a directory it lists cannot be listed; if it does not, the tree becomes `Processed` and the warnings are the `Warned` files; if it does, the error is one of those listing errors, only files of the walk have changed, and each changed file is as `processFile` leaves it |
| Init.SkippedDirsKeepContent | src/init.js:43 | a file inside a `node_modules` or `.git` directory below the root keeps its content |
| Init.WalkedFilesSubstituted | src/init.js:50-56 | every other file below the root whose read and write succeed gets the substituted text |
| Init.WalkStaysInside | src/init.js:40-58 | the walk changes nothing outside the root |
| Init.CommonPrefix | src/init.js:90 | the number of leading components two paths share, maximal |
| Init.RelativeInside | src/init.js:90 | `path.relative(template, src)` for `src` inside the template is its components below the template, joined by `/` |
| Init.CopyFilterInside | src/init.js:88-95 | for an entry inside the template, the filter passes exactly when its relative path neither contains `node_modules` nor ends with `package-lock.json` (both directions) |
| Init.TemplatePasses | src/init.js:88-95 | the template directory itself passes the filter |
| Init.KeptPathsPassFilter | src/init.js:88-95 | no entry that is copied has `node_modules` in its relative path, and none ends with `package-lock.json` |
| Init.NodeModulesComponentDropped | src/init.js:88-95 | an entry with `node_modules` inside any component below the template fails the filter and is not copied |
| Init.CleanPathsAreKept | src/init.js:88-95 | an entry is copied when its relative path has no `node_modules` and neither it nor any directory above it ends with `package-lock.json` |
| Init.LockNamedDirHidesContents | src/init.js:88-95 | everything inside a directory whose name ends with `package-lock.json` is left out |
| Init.InitProject | src/init.js:63-128 | a run ends as `InitEnds` says: a missing template or an existing target throws and changes nothing; success leaves the processed copy and its warnings; a failure throws the copy's or the walk's error after removing the target, or throws the removal's error |
| Init.Cleanup | src/init.js:121-127 | the target is removed if present and the error thrown again; a failing removal throws its own error and changes nothing |
| Init.FailureRemovesTarget | src/init.js:121-127 | after a run that throws from the copy or the walk, nothing is left at or below the target, unless its removal fails |
| Init.RemoveFailureKeepsTarget | src/init.js:121-127 | when the removal fails, a target made by the copy stays, and the error thrown is the removal's, not the original one |
| Init.TemplateUnchanged | src/init.js:63-128 | nothing inside the template changes, is removed or is added, whatever the run does |
| Init.ProjectMirrorsTemplate | src/init.js:87-96 | on success the target holds exactly the template entries that the filter keeps, each at its relative path |
| Init.ProjectSkipsFilteredNames | src/init.js:88-95 | on success no path below the target has `node_modules` in it or ends with `package-lock.json` |
| Init.VerbatimUnderSkippedDirs | src/init.js:43 | on success a file below a `.git` directory of the template arrives unchanged |
| Init.SubstitutedInCopy | src/init.js:87-108 | after a clean copy, a kept template file outside skipped directories whose read and write succeed is processed at its place below the target into its template text with the placeholders replaced |
| Init.SubstitutedElsewhere | src/init.js:99-108 | on success every other kept file whose read and write succeed holds its template text with the placeholders replaced |
| Init.CreatedFilesHaveNoTokens | src/init.js:99-108 | with a valid name that has a lowercase letter or digit, such a file holds none of the four placeholders |

## Left out

- Console output: all `console.*` and `chalk` calls, the progress and success messages, and the warning text. The model keeps only which files are warned about.
- The command line in `bin/cli.js`: prompting, `process.argv` and `process.exit`. It is input and output around `initProject`.
- `__dirname` and `fileURLToPath`: the template directory is a parameter of `InitProject`.
- The texts of the two errors thrown before the `try`. The model throws `TemplateNotFound` and `TargetExists`, carrying the paths.
- Error objects: an error is its `code` string, and rethrowing it rethrows the same code.
- Concurrency and `await`: the walk is sequential, as the source awaits each call in turn.
- Order of the copy: fs-extra copies in an order the model does not fix, so a failing copy may throw the code of any entry that fails. The model leaves behind everything that is not at or below a failing entry.
- Partial effects: a failing `writeFile` or `remove` changes nothing in the model.
- fs-extra merging into an existing destination: the model refuses the copy with EEXIST. `initProject` checks that the target is absent right before copying, so it never reaches this case.
- Symbolic links, permissions and special files. The tree has only directories and files.
- The encoding of files. Text is a sequence of characters, and a failure to decode is one of the read faults.
- The order of `readdir`: the walk is proved for every order the listing may come in.
- Unicode: `toLowerCase` and letter classes are ASCII only. `\s` is the JavaScript set. The length check counts UTF-16 code units.
- RegExp replacement patterns: a `$` in a replacement value is taken literally. Valid names and ports hold none.
- Utils.ValidatePort: models a string argument only. A port given as a JavaScript number is not modelled, because `parseInt` reads its `String()` form, which for large values is exponent notation such as `"1e+21"`.
- Placeholders.ForProject: the port is an unbounded integer written in plain decimal, so the read-back it promises also covers numbers of 1e21 or more. JavaScript writes those in exponent form (`"1e+21"`), which `parseInt` does not read back. The command line (`bin/cli.js`) passes only ports `validatePort` accepted, 1024..65535, where the two agree.
- Init.ProcessDirectory: a failing walk states only which files may have changed (`ProcessedWithin`), not how far the walk got, because that depends on the listing order.

## Behaviour worth knowing

- A validated name can complete a placeholder. `"NAME"` is valid, and `{{PROJECT_{{PROJECT_NAME}}}}` becomes `{{PROJECT_NAME}}` (`Placeholders.UppercaseNameCanCompleteToken`). So "no placeholder is left" holds only when the name has a lowercase letter or a digit (`Placeholders.ValidNameLeavesNoToken`).
- The length check admits 214 characters, but its message says "less than 214" (`Utils.LengthBoundary`).
- The copy filter sees the relative path of each entry, including directories. A directory whose name ends with `package-lock.json` is dropped with everything inside it, even though the paths inside end otherwise (`Init.LockNamedDirHidesContents`). So "copied exactly when its own relative path passes" does not hold. The exact condition is in `Init.CleanPathsAreKept`.
- The filter does not exclude `.git`: a `.git` directory is copied and only the walk skips it (`Init.VerbatimUnderSkippedDirs`).
- If `remove` fails during cleanup, its error replaces the one that started the cleanup, and the target stays (`Init.RemoveFailureKeepsTarget`).
