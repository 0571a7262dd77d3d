# ldenv in Dafny

A model of the core of `ldenv`, a command-line wrapper. It loads
dotenv files into the environment of a command it launches. Before
launching, it substitutes `@@NAME` placeholders in the command's
arguments from that environment. The model covers:

- **The command line** (`src/cli.ts`).
  - Choosing the variable that holds the mode: `ENV_MODE`, else
    `.env.local`, else `.env`, else `MODE`.
  - The flag loop: `-m`, `-n`, `-P`, the first non-dash token as the
    command, and rejection of any other dash token.
  - The lone `@@` pass, which takes the mode from the wrapped
    arguments.
  - Substituting `@@name,alt@:default@:suffix` placeholders, including
    names composed with `:` from other variables.
- **`loadEnv`** (`src/index.ts`).
  - The root folder that bounds the searches.
  - The mode-variable names (`useModeEnv` or `MODE_ENV`) and the mode.
  - The list of env files for the mode.
  - Merging every copy of those files from the current directory up to
    the root, with the innermost copy and later files winning.
  - Writing the mode back under every mode-variable name.
- **The upward file search** (`src/utils.ts`): `lookupFile` and
  `lookupMultipleFiles`, bounded by a root directory through a string
  prefix test.

Modules, one file each:

| file | module | covers |
|---|---|---|
| `wrappers.dfy` | `Wrappers` | `Option`, `Result`, and `MapAll`, a map that stops at the first failure |
| `text.dfy` | `Text` | JavaScript `startsWith`, `split` and `join` on strings |
| `env.dfy` | `Env` | the environment as a map, JavaScript truthiness, and first-non-empty lookup |
| `locate.dfy` | `Locate` | `lookupFile` and `lookupMultipleFiles` |
| `loader.dfy` | `Loader` | `loadEnv` |
| `placeholder.dfy` | `Placeholder` | placeholder substitution |
| `cli.dfy` | `Cli` | the command line, start to launch |

Every error that makes the tool print a message and exit is a `Failure`
value naming that error. The process environment, the current directory,
the files and `path.resolve` form the `Loader.Host` value. The
environment and arguments the command would be launched with form the
`Cli.Exec` value.

Three behaviours of the code differ from what its documentation
describes. In each case the model follows the code:

- **Closing markers.** A placeholder written with a closing marker,
  `@@NAME@@`, is always rejected. The split on `@@` leaves an empty last
  piece, and an empty piece has no name.
- **`-m` guard.** The guard on `-m` tests the variable name instead of
  the mode, so the "`-m` arg specified but no mode" error is never
  raised. A trailing `-m` leaves the mode unset and the run then fails
  for lack of a command; `-m ""` fails as an empty mode.
- **Two different variables.** The command line reads the name of the
  mode variable from `ENV_MODE`. `loadEnv` reads it from `MODE_ENV`.

## Model

| member | source | states |
|---|---|---|
| Wrappers.MapAll | src/cli.ts:113-159 | mapping the placeholder pieces either yields one value per piece, each the callback's success, or the error of the first piece that fails, with every earlier piece succeeding; it succeeds exactly when every piece does |
| Text.Split | src/cli.ts:107 | `split` always yields at least one piece; the first piece is a prefix of the input; it is empty exactly when the input is empty or starts with the separator |
| Text.JoinSplit | src/cli.ts:107 | joining the pieces of a split with the separator gives back the input, so splitting loses no text |
| Text.SplitSingle | src/cli.ts:107-108 | a split yields more than one piece exactly when the separator occurs, and yields the input alone otherwise, so an argument without `@@` is passed through |
| Text.EnclosedPieces | src/cli.ts:107 | a separator-free field between two separators splits into an empty piece, the field, and an empty piece |
| Text.SplitAfterField | src/cli.ts:116 | a field free of the separator followed by the separator is split off as the first piece, and the rest is split on its own |
| Env.FirstSet | src/index.ts:135-140 | the first key in order with a non-empty value gives the result; there is no result exactly when every key is unset or empty |
| Env.ScanNames | src/index.ts:135-141 | the loop that breaks on the first truthy value yields `FirstSet`'s value, or a falsy value exactly when no key has a non-empty value |
| Locate.FirstIn | src/utils.ts:13-21 | the formats loop of `lookupFile` returns the file named by the first format that names an accepted regular file in the directory, every earlier format naming none; it returns nothing exactly when no format does; a path result lies directly inside the directory |
| Locate.MatchesIn | src/utils.ts:31-39 | the formats loop of `_lookupMultipleFiles` collects every format's accepted regular file in the directory and nothing else, at most one per format, as paths exactly when `pathOnly` is set |
| Locate.MatchesInOne | src/utils.ts:31-39 | with a single format, the loop collects that format's file when it is an accepted regular file, and nothing otherwise |
| Locate.MatchesInAppend | src/utils.ts:31-39 | the matches of two format lists in a row are the first list's matches followed by the second's, so the loop keeps format order |
| Locate.MayAscend | src/utils.ts:22-24 | without a root, an absolutely spelled directory ascends exactly when it is not the filesystem root and a relative spelling always ascends once; an absolute ascent shortens the directory by one segment |
| Locate.Chain | src/utils.ts:22-26 | the directories searched start at the given one; each is the parent of the one before and an ancestor of the start; every one after the first passes the root prefix test; every one but the last may ascend and the last may not |
| Locate.LookupFile | src/utils.ts:11-27 | a result is accepted by the predicate, is a path exactly when `pathOnly` is set, lies in the starting directory or one of its ancestors, and is the current directory's own match whenever it has one |
| Locate.LookupMultipleFiles | src/utils.ts:29-51 | the list starts with the starting directory's own matches, so it holds every accepted file there; every file collected is accepted by the predicate, is a path exactly when `pathOnly` is set, and lies in the starting directory or one of its ancestors |
| Locate.MultipleFollowsChain | src/utils.ts:29-45 | `lookupMultipleFiles` lists the matches of every searched directory, innermost directory first and in format order within a directory |
| Locate.LookupFileIsFirst | src/utils.ts:11-27 | `lookupFile` returns the first element `lookupMultipleFiles` would collect with the same arguments, and nothing exactly when that list is empty |
| Locate.NeverAboveRoot | src/utils.ts:40-44 | a search started inside the root never yields a file above the root's absolute path |
| Locate.SiblingPassesRootCheck | src/utils.ts:24 | the root test compares strings, so from `/a/bc/d` with root `/a/b` the search climbs to `/a/bc`, which is outside the root |
| Locate.NothingFound | src/utils.ts:11-27 | on a filesystem with no files the search finds nothing |
| Loader.RootFolder | src/index.ts:72-97 | the root is never empty; precedence is `config.folder`, then `ENV_ROOT_FOLDER` in the environment, then the text of `.root.env`, then the entry in `.env.local`, then the entry in `.env`, then "." |
| Loader.ModeEnvSetting | src/index.ts:99-129 | a set `useModeEnv` is kept (a list always counts as set, even an empty one); otherwise one non-empty name: `MODE_ENV` from the environment, else from the nearest `.env.local`, else from the nearest `.env`, else "MODE" |
| Loader.ResolveMode | src/index.ts:131-146 | the mode is never empty: `config.mode`, then the first mode variable with a non-empty value, then `config.defaultMode`, then "local" |
| Loader.EnvFiles | src/index.ts:148-155 | the file list is the optional default file, then `.env` and `.env.local`, then `.env.<mode>` and `.env.<mode>.local` for any mode other than "local" |
| Loader.Reversed | src/index.ts:166 | the reversed list has the same length, with element `i` taken from position `n-1-i` |
| Loader.FileLayers | src/index.ts:158-170 | one env file contributes one layer per copy found on the way up |
| Loader.FileLayersOrder | src/index.ts:159-170 | layer `i` holds the entries of the copy found at position `n-1-i`, so the copies are merged from the outermost in |
| Loader.CwdCopyLast | src/index.ts:159-170 | when the current directory holds the file, its entries form the last layer, the one merged last |
| Loader.LayersAppend | src/index.ts:157-171 | the layers of a file list are the layers of its files in order, so a later file in the list is merged after an earlier one |
| Loader.Merge | src/index.ts:157-172 | the merged keys are exactly those of some layer, and each key takes its value from the last layer that defines it |
| Loader.WriteBack | src/index.ts:181-189 | every mode-variable name is mapped to the mode; every other key keeps its value and no other key is added |
| Loader.LoadEnv | src/index.ts:68-193 | the result holds the merged file entries plus the mode-variable names; every name maps to the resolved non-empty mode, and every other key keeps its merged value |
| Loader.NoFilesModeVariable | src/index.ts:99-146 | with no files, no `MODE_ENV` and no mode given, `loadEnv` writes under "MODE" the value of `MODE`, or "local" when it is unset or empty |
| Loader.ModeFilesOverride | src/index.ts:149-172 | with no default file, `.env.local` overrides `.env`, and for a mode other than "local" `.env.<mode>` and then `.env.<mode>.local` override both |
| Loader.InnermostWins | src/index.ts:159-170 | within one file name, a key takes its value from the nearest copy that defines it, whatever the copies further up hold |
| Loader.NearestWins | src/index.ts:157-172 | merging a reversed list of entry maps, a key takes its value from the first map in the original order that defines it |
| Placeholder.ParsePiece | src/cli.ts:116-125 | a piece fails exactly when its name field is empty, and the error quotes the piece; otherwise the name is a non-empty prefix of the piece free of `@:`, and a default comes only together with a suffix |
| Placeholder.ThreeFields | src/cli.ts:116-125 | `name@:default@:suffix...` gives name, default and suffix, and ignores any further fields |
| Placeholder.TwoFields | src/cli.ts:116-125 | `name@:suffix` gives the suffix and no default |
| Placeholder.OneField | src/cli.ts:116-125 | a bare name gives neither default nor suffix |
| Placeholder.Candidates | src/cli.ts:128-141 | a name list without `,` gives one candidate, that name composed from its `:` segments |
| Placeholder.CandidatesCons | src/cli.ts:128-141 | a name list `a,rest` gives `a`'s composition followed by the candidates of `rest`, so there is one candidate per `,`-separated name, in order |
| Placeholder.ComposeName | src/cli.ts:133-141 | a name without `:` is used literally |
| Placeholder.Assemble | src/cli.ts:135-141 | the composed name begins with the first segment (a variable's value at odd positions), and a single segment is the whole name |
| Placeholder.ComposeStep | src/cli.ts:133-141 | in `a:b:rest`, `b`'s value is inserted as it stands, one level only, and `rest` is composed independently |
| Placeholder.ComposeLast | src/cli.ts:133-141 | in `a:b`, `b` is looked up and a missing variable contributes "" |
| Placeholder.ResolvePiece | src/cli.ts:113-158 | a placeholder resolves to the first candidate with a non-empty value, else to a non-empty default, followed by the suffix; it fails exactly when neither exists, naming the piece and its names |
| Placeholder.EmptyDefaultFails | src/cli.ts:149-156 | the explicitly empty default `@@X@:@:`, which the error message recommends, does not prevent the error |
| Placeholder.DefaultApplies | src/cli.ts:149-158 | with a non-empty default, a placeholder always resolves, to the first set candidate or else the default, followed by the suffix |
| Placeholder.SubstituteArg | src/cli.ts:106-163 | an argument without `@@` is unchanged; otherwise it is the text before the first `@@` followed by every piece's resolution, and it fails with the first failing piece's error |
| Placeholder.SubstituteAll | src/cli.ts:106-164 | the arguments are substituted one to one, all succeed or the result fails, and arguments without placeholders pass unchanged |
| Placeholder.SinglePlaceholder | src/cli.ts:107-160 | an argument `@@piece` evaluates exactly as that piece resolves |
| Placeholder.ClosingMarkerRejected | src/cli.ts:107-119 | the closing-marker form `@@NAME@@` fails for every environment |
| Cli.CliModeEnvName | src/cli.ts:14-38 | the mode variable's name is never empty: `ENV_MODE` from the environment, else the entry in `.env.local`, else the entry in `.env`, else "MODE" |
| Cli.ParseFlags | src/cli.ts:46-71 | the command is a token not starting with `-`, and the command arguments are exactly the tokens after it; the name stays non-empty; the `-m` error cannot occur once the name is set; `-P` can only clear the parse flag |
| Cli.ExtractMode | src/cli.ts:79-90 | after the pass no `@@` token remains, the kept tokens are a subsequence of the input, the mode changes only when an `@@` was present, the only error is a final `@@` with no mode, and input without `@@` is untouched |
| Cli.ExtractStep | src/cli.ts:79-90 | tokens before the first `@@` are kept; the pass resumes after the `@@` and its value, with that value as the mode |
| Cli.LastMarkerSetsMode | src/cli.ts:81-88 | with a single `@@ v` pair, the mode becomes `v` and the other tokens stay in order |
| Cli.TrailingMarker | src/cli.ts:82-87 | a final `@@` fails when no mode is set and otherwise resets the mode to `undefined` |
| Cli.InitialFlags | src/cli.ts:38-44 | the flag loop starts with the mode read from the environment under the name `CliModeEnvName` gives, parsing on, and no command |
| Cli.Finish | src/cli.ts:73-94 | a missing or empty command fails with "no command specified"; otherwise the `@@` pass's error is returned as it is, and an empty mode fails as such; it succeeds exactly when none of these happens, with the arguments and mode the pass yields, and the command, name and flag from the loop |
| Cli.Prepare | src/cli.ts:41-94 | a prepared invocation has a non-empty command not starting with `-`, no lone `@@` left, a mode that is unset or non-empty, and a non-empty variable name; the `-m` error never occurs |
| Cli.LaunchEnv | src/cli.ts:97-103 | the command's environment holds the mode, or "undefined", under the command line's variable name; every other loaded entry overrides the process environment; process variables not loaded keep their values; nothing else is added |
| Cli.Launch | src/cli.ts:106-164 | the command runs in the given environment; every argument is its substitution there; it succeeds exactly when every argument substitutes, and otherwise fails with the error of the first argument that fails; arguments without placeholders pass unchanged |
| Cli.Run | src/cli.ts:41-167 | a run fails with the preparation error when preparation fails; otherwise it succeeds exactly when every prepared argument substitutes in the launch environment, launching the prepared command in that environment with each argument substituted, and fails only with a placeholder error |
| Cli.ModeText | src/cli.ts:103 | a set mode is written as it is and an unset mode as the string "undefined" |
| Cli.Loaded | src/cli.ts:97-100 | when the command line passes a non-empty mode, `loadEnv` maps every mode-variable name to exactly that mode |
| Cli.ParseFlagIgnored | src/cli.ts:65-66 | the `-P` flag's value changes nothing else the flag loop computes |
| Cli.PrepareWithNoParseFlag | src/cli.ts:65-66 | a leading `-P` changes the prepared invocation only in the unread flag |
| Cli.LaunchEnvIgnoresParse | src/cli.ts:97-103 | the launch environment does not depend on the `-P` flag |
| Cli.RunIgnoresNoParseFlag | src/cli.ts:42-167 | `-P` before the command leaves the launched command, arguments and environment unchanged |
| Cli.NameFlagKeepsParse | src/cli.ts:53-64 | the flag loop computes the same apart from the variable name, whatever non-empty name it starts with |
| Cli.ModeReadBeforeNameFlag | src/cli.ts:41-64 | with `-n X`, the mode is still read under the name found before the flags, and only the write-back uses `X` |
| Cli.ModeVariablesDiverge | src/cli.ts:97-103 | with only `ENV_MODE` set and no mode given, the command's environment holds "undefined" under the `ENV_MODE` name, while `loadEnv` writes its resolved mode under "MODE", and the launch succeeds |
| Cli.UnknownFlagRejected | src/cli.ts:67-69 | a dash token other than `-m`, `-n` and `-P` is rejected, naming the token |
| Cli.EmptyCommandRejected | src/cli.ts:48-75 | an empty first token is taken as the command and then rejected as no command |
| Cli.FlagsApplied | src/cli.ts:46-71 | the flag loop consumes a run of `-P`, `-m v` and `-n x` groups and continues with the last `-m` value as the mode, the last `-n` value as the name, and parsing off when any `-P` was seen |
| Cli.CommandAfterFlags | src/cli.ts:46-51 | after a run of flag groups, the first token not starting with `-` is the command and every later token is passed on unchanged |
| Cli.OnlyFlags | src/cli.ts:46-71 | flag groups alone leave the loop without a command |
| Cli.PrepareNoCommand | src/cli.ts:73-75 | flag groups alone end in "no command specified" |
| Cli.PrepareAfterFlags | src/cli.ts:41-94 | after flag groups, an empty command fails; otherwise the invocation holds the command and the arguments and mode the lone `@@` pass yields, starting from the last `-m` value or else the environment's mode, with the last `-n` name or else the one read first; the pass's error and an empty mode are returned as errors |
| Cli.RunPlain | src/cli.ts:41-167 | end to end, a command after flag groups with arguments free of `@@` runs with those arguments unchanged, in the process environment overlaid with the loaded files and the mode under the command line's variable name |
| Cli.RunWithoutFlags | src/cli.ts:41-167 | with no flags, the mode is the value of the variable `CliModeEnvName` names, and the command runs with its arguments unchanged |
| Cli.RunAfterFlags | src/cli.ts:41-167 | end to end, whatever the arguments hold: once the flags and the `@@` pass succeed with a non-empty mode, the run is the placeholder substitution of the remaining arguments in the launch environment for that mode |
| Cli.RunModeMarker | src/cli.ts:79-167 | a lone `@@ v` among the arguments overrides the environment's mode: the pair is removed, `loadEnv` runs with mode `v`, and the other arguments are substituted in order |
| Cli.NameFlagNeedsValue | src/cli.ts:59-63 | `-n` with no value, or with an empty one, after any flag groups fails with the missing-name error |

## Left out

- The dotenv parser is a foreign library. Each `Locate.File` carries both its text and the entries the parser would produce from that text.
- dotenv-expand's variable expansion is modelled as the identity, for the same reason. Its rule that a value already in the process environment overrides the parsed one is not modelled. The environment the command sees is the process environment overlaid with the loaded entries.
- `path.resolve` is a function parameter of `Loader.Host`. `path.join`, `path.dirname`, `existsSync` and `statSync().isFile()` are modelled as operations on segment lists and on a map from absolute paths to regular files. Symbolic links, permissions and read errors are not modelled. An unreadable file counts as absent.
- The directory passed to a lookup is either its own absolute path or a relative spelling such as `.` or `''`. A boolean argument says which. Arbitrary relative paths are not modelled.
- `execFileSync`, `console.error` and `process.exit` are left out. The model returns the command, arguments and environment to launch, or the error that ends the run.
- The assignments to the global `process.env` are left out. The values they write appear in the returned maps instead.
- Features that the documentation describes but the code does not implement are not modelled: `~~` markers, `@=`, `--git`, `-d` and `--verbose`.
- Of the configuration of `loadEnv`, only `mode`, `defaultMode`, `folder`, `useModeEnv` and `defaultEnvFile` are modelled. These are the fields `loadEnv` reads.
- `Locate.View`: a directory spelled relatively is given to the predicate, and returned with `pathOnly`, as its absolute path, while the code passes the joined relative spelling (such as `.env`). `loadEnv` passes no predicate and reads each returned path at once, so its results are the same either way.
- `Locate.Hit`: a file name is a single path segment. A name containing `/` is looked up as one segment and not through a subdirectory. So for a mode such as `eu/prod`, or a default file in a subdirectory, the model does not find the file `prod` under the directory `.env.eu` that the code would find.
