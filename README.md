# filesystem — a verified model of the path, file-name, directory-listing and translation helpers

The PHP library `joffreydemetz/filesystem` wraps Symfony's filesystem component with static helpers.
This project models the part of it that makes decisions, rather than the part that hands work to
Symfony:

- `Path::clean` (`path.dfy`, module `Paths`). It trims the path. An empty result (`""` or `"0"`)
  becomes the root path stored by `Path::setRootPath`. Otherwise every run of `/` and `\` is folded
  into one directory separator, and a Windows UNC path keeps an extra leading backslash. The stored
  root path is a field of the class `Path`.
- The file-name helpers of `File` (`file.dfy`, module `Files`): `getExt`, `stripExt`, `getName`,
  `getPath`, `getStrippedName`, `makeSafe`, and the checks `File::move` makes before it renames.
- The directory scanner of `Folder` (`folder.dfy`, module `Folders`):
  - the recursive walk `_items`, a `while` loop over directory entries, modelled as the method
    `ScanDir` and proved equal to the specification function `Items`;
  - `files` and `folders`, which clean the path, check that it is a directory, build the exclusion
    pattern, walk, and sort;
  - the checks of `Folder::move`.
- The translation table of `Helper` (`helper.dfy`, module `Translations`): the French defaults,
  `setTranslations` (an `array_merge` into the table) and `getTranslation` (an upper-cased lookup
  falling back to `UNKNOWN_ERROR`). The table is a field of the class `Helper`.

Shared pieces:

- `runs.dfy` (module `Runs`) defines squeezing a string: each maximal run of characters of one
  class becomes a single representative. This is the shape of the regular expressions
  `#[/\\]+#` in `clean` and `/[\-]+/` in `makeSafe`.
- `sorting.dfy` (module `Sorting`) is the sort that `natsort`/`asort` perform, with the comparison
  as a parameter.
- `wrappers.dfy` holds `Option` and `Result`.

The model works on these abstractions:

- The filesystem is a set of existing paths (for `exists`), plus a function from a path to a
  directory tree (for `is_dir`, `opendir` and `readdir`).
- Regular expressions supplied by the caller are predicates on names.
- A thrown exception is a `Failure` carrying the translation key it would look up.

## Model

| member | source | states |
|---|---|---|
| Paths.Trim | Path.php:86 | the result neither starts nor ends with one of PHP's trim characters (space, tab, newline, carriage return, NUL, vertical tab), and a string that already does neither is returned unchanged |
| Paths.TrimStripsBlanks | Path.php:86 | the input is a blank prefix, then the trimmed string, then a blank suffix: `trim` removes leading and trailing blanks and nothing else |
| Paths.Clean | Path.php:86-101 | a path that trims to `""` or `"0"` gives the stored root path verbatim; any other path gives a non-empty result |
| Paths.CleanArg | Path.php:81-84 | a non-empty non-string argument returns `""` (the exception after the `return` is never reached); an empty non-string gives the root path; a string is cleaned |
| Paths.Path.constructor | Path.php:21 | the root path starts as the empty string |
| Paths.Path.SetRootPath | Path.php:23-26 | the stored root path becomes the argument, whatever it is (it is not cleaned) |
| Paths.RootPathDefault | Path.php:21-26 | `clean("")` gives `""` before `setRootPath` and the new root path after it |
| Paths.CleanKeepsOtherCharacters | Path.php:97-98 | apart from separators, the cleaned path holds exactly the characters of the trimmed path, in order |
| Paths.CleanSeparatorShape | Path.php:94-99 | in the cleaned path, the only separator is the chosen one, and no two separators are adjacent; the exception is a UNC path, which starts with exactly two backslashes and is not a UNC path otherwise |
| Paths.CleanIdempotent | Path.php:86-101 | cleaning a cleaned non-empty path changes nothing |
| Paths.CleanUncFixpoint | Path.php:94-95 | a cleaned UNC path is still a UNC path, and it collapses to the same string |
| Paths.CleanPlainFixpoint | Path.php:97-98 | a cleaned path that is not a UNC path is cleaned back to itself |
| Paths.CollapseNotZero | Path.php:88-98 | folding separators never turns a path that is not `""`/`"0"` into one that is |
| Runs.SqueezeRun | Path.php:98 | each maximal run of separators becomes exactly one separator, and the text on both sides is squeezed on its own |
| Runs.SqueezeUnchangedIff | Path.php:98 | folding runs leaves a string unchanged if and only if it has no two adjacent class characters and uses only the representative |
| Runs.SqueezeKeepsOthers | Path.php:98 | squeezing keeps every character outside the class, in order |
| Runs.SqueezeShape | Path.php:98 | a squeezed string has no two adjacent class characters, and the representative is its only class character |
| Files.LastIndexOf | src/File.php:232 | `strrpos`: none exactly when the character is absent; otherwise the index of its last occurrence |
| Files.GetExt | src/File.php:230-234 | with a dot, the dot-free text after the last dot; without one, the name minus its first character (see Findings) |
| Files.StripExt | src/File.php:242-245 | a name without a dot is unchanged; otherwise the text before the last dot |
| Files.ExtRoundTrip | src/File.php:230-245 | for a name with a dot, `stripExt(f) . "." . getExt(f) == f` |
| Files.GetExtWithoutDot | src/File.php:232-233 | `getExt("README")` is `"EADME"` |
| Files.Extension | src/File.php:230-234 | the extension as intended: `""` without a dot; with one, the dot-free text that completes `stripExt` to the name |
| Files.GetName | src/File.php:253-262 | a suffix of the path with no `/` or `\`, preceded by a separator whenever it is shorter than the path; a path without separators is its own name |
| Files.Explode | src/File.php:272 | at least one piece, and no piece holds the separator |
| Files.Implode | src/File.php:274 | joining n separator-free pieces puts exactly n - 1 separators into the result |
| Files.ExplodeImplode | src/File.php:272-274 | `explode` undoes `implode` on a non-empty list of separator-free pieces |
| Files.ExplodeJoin | src/File.php:272 | exploding `a . sep . last` gives the pieces of `a` followed by `last` |
| Files.LastSeparator | src/File.php:272 | the last separator of `a . sep . last` is the one added, when `last` has none |
| Files.ImplodeExplode | src/File.php:272-274 | `implode` undoes `explode` |
| Files.GetPath | src/File.php:270-275 | `""` when there is no `/`; otherwise exactly the text before the last `/` |
| Files.PathNameRoundTrip | src/File.php:253-275 | for a path with a `/` and no `\`, `getPath(f) . "/" . getName(f) == f` |
| Files.GetStrippedName | src/File.php:283-287 | a prefix of the name with no separator: the whole name when it has no dot; otherwise adding back `"."` and the extension gives the name |
| Files.TrimTrailingDots | src/File.php:302 | `rtrim($file, '.')`: a prefix with no trailing dot, and only dots were removed |
| Files.DotRunsToSpace | src/File.php:297-298 | after replacing runs of two or more dots, no two dots are adjacent; a single leading dot survives; a last non-dot character stays a non-dot |
| Files.DotRunsKeepOthers | src/File.php:298 | the dot-run replacement keeps every character other than dots and spaces, in order |
| Files.LeadingDotToSpace | src/File.php:299 | a leading dot becomes a space, any other first character stays, and all later characters are kept |
| Files.TrimKeepsAlnum | src/File.php:302 | stripping trailing dots removes no letter or digit |
| Files.LeadingDotKeepsAlnum | src/File.php:299 | replacing a leading dot removes no letter or digit |
| Files.MakeSafeKeepsAlnum | src/File.php:295-307 | the result holds exactly the letters and digits of the input, in order |
| Files.MakeSafe | src/File.php:295-307 | the result holds only ASCII letters, digits, `.` and `-`; it does not start or end with a dot; it has no two adjacent dots and no two adjacent dashes |
| Files.MakeSafeFixpoint | src/File.php:295-307 | a name that is already safe is returned unchanged |
| Files.MakeSafeUnchangedIff | src/File.php:295-307 | `makeSafe` leaves a name unchanged if and only if the name is safe |
| Files.MakeSafeIdempotent | src/File.php:295-307 | applying `makeSafe` twice is the same as once |
| Files.DotRunToSpace | src/File.php:298 | a maximal run of two or more dots becomes exactly one space, a lone dot stays a dot, and the text on either side is replaced on its own |
| Files.DotRunsAppend | src/File.php:298 | text that does not end in a dot is replaced independently of what follows it |
| Files.LeadingDotsExactly | src/File.php:298 | the dot run that opens a name ends exactly at its first non-dot character |
| Files.DotRunsFixpoint | src/File.php:298 | a name without adjacent dots passes the dot-run replacement unchanged |
| Files.MoveFile | src/File.php:120-131 | fails with CANNOT_FIND_SOURCE exactly when the cleaned source does not exist; fails with ALREADY_EXISTS exactly when the source exists, the destination exists and overwriting is off; succeeds exactly in the remaining case, renaming the cleaned source to the cleaned destination |
| Files.Exists | src/File.php:59-65 | `exists` cleans its path and asks whether that path exists |
| Files.ExistsCleaned | src/File.php:122-129 | for a path that does not trim to `""` or `"0"`, cleaning it before `exists` (as `move` does) gives the same answer |
| Files.MoveFileOverwriteProceeds | src/File.php:129 | when overwriting, a file move passes its checks exactly when its source exists |
| Sorting.Insert | src/Folder.php:177-183 | inserting adds exactly one occurrence of the element |
| Sorting.SortBy | src/Folder.php:177-183 | the sorted list is a permutation of the input |
| Sorting.InsertSorted | src/Folder.php:177-183 | inserting into a sorted list keeps it sorted under a total preorder |
| Sorting.SortBySorted | src/Folder.php:177-183 | under a total preorder the result is sorted |
| Folders.ScanDir | src/Folder.php:231-264 | the loop over `readdir` collects exactly the specified items, in visiting order |
| Folders.Excluded | src/Folder.php:242 | the skip test: ".", "..", a listed name, or a name the exclusion regex matches |
| Folders.ExcludedIff | src/Folder.php:168-173 | with the joined exclusion patterns, a name is skipped exactly when it is "." or "..", is listed, or matches one of the patterns; with no pattern, none is skipped for matching |
| Folders.ItemsAreSelectedEntries | src/Folder.php:242-253 | every item reported is a selected entry that the walk reaches in the scanned tree, reported by full path or bare name |
| Folders.MatchesReach | src/Folder.php:241-258 | an entry is kept if and only if it is selected and reached in the tree: directly, or with recursion through sub-directories that are not excluded and can be opened |
| Folders.MatchesUpToReach | src/Folder.php:241-260 | after k entries, a hit is kept if and only if it is selected and reached through one of those k entries |
| Folders.EntryReach | src/Folder.php:242-258 | one entry contributes exactly the selected hits reached through it |
| Folders.MatchesUpToSelected | src/Folder.php:242-258 | every hit is a selected entry found in a directory under the starting path |
| Folders.NoRecursionDirectChildren | src/Folder.php:256-257 | unless `$recurse === true`, exactly the selected direct children of a readable directory are reported |
| Folders.MatchesUpToFlat | src/Folder.php:256-257 | without recursion, the hits among the first k entries are exactly the selected ones among them |
| Folders.DepthMeansNoRecursion | src/Folder.php:256 | an integer depth scans exactly like `false`: only the top level |
| Folders.MatchesUpToSameWithoutRecursion | src/Folder.php:256 | any two non-recursing `$recurse` values give the same hits |
| Folders.MatchesUpToGrows | src/Folder.php:241-260 | hits only accumulate: those of the first j entries are a prefix of those of the first n |
| Folders.EntryContributionKept | src/Folder.php:247-258 | a selected entry is reported; with recursion, everything found below a non-excluded sub-directory is reported too |
| Folders.ReplaceEntry | src/Folder.php:241-260 | swapping an entry for one that contributes the same items leaves the result unchanged |
| Folders.ExcludedSubtreeIgnored | src/Folder.php:242 | an excluded directory is never entered: whatever it holds, the result is the same |
| Folders.UnreadableSubdirDegrades | src/Folder.php:237-239 | a sub-directory that cannot be opened contributes at most itself, whatever its contents |
| Folders.ListFiles | src/Folder.php:160-184 | fails with FOLDER_PATH_IS_NOT_A_FOLDER exactly when the cleaned path is not a directory; otherwise returns a permutation of the files found, sorted by the chosen comparison when it is a total preorder |
| Folders.ListFolders | src/Folder.php:198-217 | the same for directories, always using the regular comparison |
| Folders.DefaultFilesSkipHidden | src/Folder.php:160 | with the default arguments of `files`, no reported name starts with a dot, contains `~`, or is in the default exclusion list |
| Folders.MoveFolder | src/Folder.php:121-132 | fails with FAILED_FINDING_SOURCE_FOLDER exactly when the cleaned source does not exist; fails with FOLDER_ALREADY_EXISTS exactly when both exist; succeeds exactly when the source exists and the destination does not, renaming the cleaned paths |
| Folders.MoveFolderIgnoresOverwrite | src/Folder.php:130-132 | a folder move fails in the same cases, with the same error, whether or not overwriting is asked for |
| Translations.ToUpper | src/Helper.php:78 | `strtoupper`: the same length; no lower-case ASCII letter is left; each one becomes the same letter in upper case; every other character stays where it was |
| Translations.ToUpperIdempotent | src/Helper.php:78 | upper-casing twice is upper-casing once |
| Translations.DefaultTable | src/Helper.php:24-57 | the default table maps UNKNOWN_ERROR to "Erreur de type inconnu" |
| Translations.Helper.constructor | src/Helper.php:24-57 | the table starts as the French defaults, which hold UNKNOWN_ERROR |
| Translations.Helper.SetTranslations | src/Helper.php:65-68 | every given key takes the given text; every other key keeps its presence and its text; an empty map changes nothing; UNKNOWN_ERROR stays present |
| Translations.Helper.GetTranslation | src/Helper.php:76-84 | the text of the upper-cased key if present, otherwise the UNKNOWN_ERROR text; always a value of the table |
| Translations.LookupIgnoresCase | src/Helper.php:78 | a key and its upper-cased form translate the same |
| Translations.UnregisteredKeyFallsBack | src/Helper.php:83 | a key with no lower-case letters that is absent from the table translates to the UNKNOWN_ERROR text |
| Translations.CannotFindSourceFallsBack | src/File.php:126 | the key CANNOT_FIND_SOURCE used by `File::move` is not in the default table, so it shows "Erreur de type inconnu" |
| Translations.AlreadyExistsFallsBack | src/File.php:130 | the same for ALREADY_EXISTS |
| Translations.FailedRenamingFallsBack | src/File.php:138 | the same for FAILED_RENAMING (the table only has FAILED_RENAMING_FILE and FAILED_RENAMING_FOLDER) |
| Translations.FailedDeletingFallsBack | src/File.php:105 | the same for FAILED_DELETING, the key `File::delete` reports (the table only has FAILED_DELETING_FILE and FAILED_DELETING_FOLDER) |

## Left out

- Everything handed to Symfony's `Filesystem` is not part of this model: copy, create, delete, exists, read, write, the rename itself, `setPermissions`. `MoveFile` and `MoveFolder` stop at the `Rename` they would ask for.
- `Path::canChmod`, `File::same`, `File::upload` and the other helpers built on PHP's file functions are left out. They decide only on what those calls return: mime type, file type, size and contents in `same` (src/File.php:160-189), `is_writeable` and `move_uploaded_file` in `upload` (src/File.php:199-221).
- The root `Helper.php` and `shortcuts.php` are not part of this model.
- Regular-expression semantics (PCRE) are not modelled. The `$filter` and `$excludefilter` patterns are predicates on names. Only the defaults `.`, `^\..*` and `.*~` are written out.
- The exact orders of `natsort` (`strnatcmp`) and `asort` (PHP's regular comparison, which is not always transitive on numeric strings) are parameters. Sortedness is therefore promised only when the comparison is a total preorder. The in-place sort is modelled as a pure insertion sort.
- `readdir` order, `set_time_limit`, and symbolic links are not modelled. A directory is a finite tree, so the model's walk always ends. With `$recurse === true`, the PHP walk would follow a symbolic-link loop without end, and no code raises the FOLDER_LOOP key of the table. A directory is a tree whose children are listed in the order `readdir` would give.
- Folders.Excluded: `in_array` compares loosely in PHP (`"1" == "01"`). The model uses exact membership.
- Translations.Helper.SetTranslations: `array_merge` renumbers integer-like keys instead of overriding them. The model treats every key as a string key. Translation values are strings, so a `null` value, which `isset` would skip, is not modelled.
- Paths.CleanArg: PHP 8 throws a `TypeError` when `trim` is given an array. The model's non-string arguments are scalars only.
- Files.GetExt: PHP strings are bytes and the model's are characters. `clean`, `getName`, `getPath`, `stripExt` and the dot search of `getExt` look only for ASCII characters (`.`, `/`, `\`), so their results agree. The exception is `getExt` on a name without a dot whose first character takes several bytes: PHP drops only the first byte of that character, and the model drops the whole character.
- Files.MakeSafe: PHP works on bytes and the model on characters. A multi-byte character becomes several dashes in PHP, which the final dash collapse turns into one. That is the single dash the model produces, so the result is the same.
- Exception texts: the model reports the translation key of a failure. It does not model the message built from it, the `' : '.$src` suffix, or the wrapped Symfony message.
- Folders.DepthMeansNoRecursion: the doc comments of `files`, `folders` and `_items` say an integer `$recurse` limits the depth. The code tests `$recurse === true`, so an integer means no recursion. The model follows the code.

## Findings

| source | as written | input that shows it | evidently intended | confidence | as-written member | corrected member |
|---|---|---|---|---|---|---|
| src/File.php:232-233 | `strrpos` returns `false` when there is no dot, `false + 1` is 1, and `substr($file, 1)` drops the first byte (the first character when that character is ASCII) | `getExt("README")` returns `"EADME"` | a name without a dot has the empty extension | high (not executed) | Files.GetExtWithoutDot | Files.Extension |
