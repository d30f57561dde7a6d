# File organizer: a Dafny model

This project models the decision logic of `file_organizer.py`, a script that
walks a directory tree and does two things to each file:

- It renames the file to a canonical form. The stem is lowercased, every run
  of whitespace, dots and hyphens becomes one `_`, and leading and trailing
  `_` are stripped. The extension is kept exactly as it was.
- When asked to organize, it moves the file into a category folder under the
  root. The category is `Images`, `Videos` or `Documents` for the named
  extensions. Any other extension gets `"<EXT> Files"`, and a file without an
  extension goes to `Uncategorized`.

The model is split into modules that follow the script's steps:

- `Text` holds character classes and ASCII case mapping. `IsSpace` is the set
  of characters Python's `str.isspace` accepts.
- `Normalizer` holds `standardize_filename`: `Lower`, then `Collapse` for the
  regular-expression substitution, then `StripUnderscores`.
- `Paths` holds `os.path.splitext` and `os.path.join`, with the semantics of
  Python's `posixpath`. `posixpath`'s own source is not among the modelled
  files; `SplitExt` and `Join` follow its documented behaviour.
- `Categorizer` holds the extension classifier.
- `Organizer` holds the new name, the per-file plan, the effect of a plan
  under given filesystem answers (`Apply`), and the walk (`ProcessDirectory`).

Every filesystem call becomes an input. For each entry, `Effects` says:

- whether the entry is a directory;
- whether `os.rename` succeeded;
- whether `os.makedirs` succeeded;
- how `shutil.move` ended: it moved the file, raised `shutil.Error` (caught
  and reported), or raised another `OSError` (not caught).

The walk takes the `(folder, filename)` pairs in the order `os.walk` lists
them.

Two behaviours of the code are easy to miss:

- In the code only `shutil.Error` from the move is caught. An `OSError` from
  `os.makedirs` or any other error from `shutil.move` ends the walk, so
  `Apply` can return `Raised` and `ProcessDirectory` stops right after that
  entry.
- A visible file whose stem normalizes to nothing, such as `-.txt`, is
  renamed to a hidden name (`.txt`; see `SeparatorStemBecomesHidden`). A
  file with no extension and such a stem is given the empty name, and the
  rename is attempted with that name.

## Model

| member | source | states |
|---|---|---|
| Text.Lower | file_organizer.py:35 | `str.lower`: same length, each character mapped by `ToLower` (ASCII capitals to small letters, all else unchanged); `LowerFixedIff` characterizes its fixed points |
| Text.Upper | file_organizer.py:89 | `str.upper`: same length, each character mapped by `ToUpper` (ASCII small letters to capitals, all else unchanged) |
| Text.IsSpace | file_organizer.py:39 | The `\s` class of a `str` pattern: exactly the characters `str.isspace` accepts |
| Text.LowerFixedIff | file_organizer.py:35 | Lowercasing leaves a string unchanged exactly when it contains no capital letter |
| Normalizer.IsSep | file_organizer.py:39 | The character class `[\s.-]`: whitespace, `.` or `-` |
| Normalizer.Collapse | file_organizer.py:39 | `re.sub(r'[\s.-]+', '_', s)` as a left-to-right scan that replaces each maximal separator run by one `_`; characterized by `CollapseMatchesSpec`, `CollapseAlphabet`, `CollapseKeepsSepFree` and `CollapseAllUnderscore` |
| Normalizer.CollapseAlphabet | file_organizer.py:39 | After the substitution no whitespace, `.` or `-` is left; the result is no longer than the input; every character is `_` or comes from the input |
| Normalizer.CollapseMatchesSpec | file_organizer.py:39 | The substitution equals an independent position-by-position definition: the first character of each maximal separator run becomes `_`, the rest of the run disappears, and every other character is kept in order |
| Normalizer.CollapseKeepsSepFree | file_organizer.py:39 | A string without separators is unchanged, so existing runs of `_` are not merged |
| Normalizer.CollapseAppend | file_organizer.py:39 | The substitution distributes over concatenation when the cut does not fall just after a separator |
| Normalizer.CollapseAllUnderscore | file_organizer.py:39 | The substitution yields only underscores exactly when the input holds only separators and underscores |
| Normalizer.CollapseWords | file_organizer.py:39 | Four separator-free words joined by separator runs come out joined by single underscores |
| Normalizer.TrimLeading | file_organizer.py:42 | `lstrip('_')`; characterized by `TrimLeadingShape` |
| Normalizer.TrimTrailing | file_organizer.py:42 | `rstrip('_')`; characterized by `TrimTrailingShape` |
| Normalizer.StripUnderscores | file_organizer.py:42 | `strip('_')`, as `rstrip` after `lstrip`; characterized by `StripUnderscoresShape` |
| Normalizer.TrimLeadingShape | file_organizer.py:42 | `lstrip('_')` removes a prefix of underscores, all of it: the result is a suffix of the input and does not start with `_` |
| Normalizer.TrimTrailingShape | file_organizer.py:42 | `rstrip('_')` removes a suffix of underscores, all of it: the result is a prefix of the input and does not end with `_` |
| Normalizer.StripUnderscoresShape | file_organizer.py:42 | `strip('_')` gives a contiguous piece of the input with only underscores before and after it, and the piece neither starts nor ends with `_`; it is empty exactly when the input is all underscores, and it leaves an already trimmed string unchanged |
| Normalizer.Standardize | file_organizer.py:29-47 | `standardize_filename`: lowercase, collapse separator runs, strip underscores; characterized by `StandardizeShape`, `StandardizeFixedIff`, `StandardizeIdempotent` and `StandardizeEmptyIff` |
| Normalizer.StandardizeShape | file_organizer.py:29-47 | A normalized stem has no separator and no capital letter, neither starts nor ends with `_`, is no longer than the stem, and each character is `_` or a lowercased character of the stem |
| Normalizer.StandardizeFixedIff | file_organizer.py:29-47 | A stem is left unchanged exactly when it has no separator, no capital letter and no `_` at either end, so underscores inside a name are neither merged nor removed |
| Normalizer.StandardizeIdempotent | file_organizer.py:29-47 | Normalizing a normalized stem changes nothing |
| Normalizer.StandardizeEmptyIff | file_organizer.py:29-47 | The normalized stem is empty exactly when the stem holds nothing but separators and underscores |
| Normalizer.StandardizeExample | file_organizer.py:29-47 | `"My Photo - Vacation.2023"` normalizes to `"my_photo_vacation_2023"` |
| Normalizer.StandardizeKeepsUnderscores | file_organizer.py:39-42 | Example: `"a__b"` stays `"a__b"` |
| Normalizer.StandardizeSeparatorsOnly | file_organizer.py:29-47 | Any stem made only of separators (whitespace, `.`, `-`) normalizes to the empty string |
| Paths.IsHidden | file_organizer.py:61 | `filename.startswith('.')`: non-empty with a leading `.` |
| Paths.RFind | file_organizer.py:67 | The last index holding the character, or -1 when no index holds it |
| Paths.SplitExt | file_organizer.py:67 | `os.path.splitext`: the extension starts at the last dot of the last path component unless only dots precede it there; characterized by `SplitExtParts`, `SplitExtOfVisibleEntry`, `SplitExtOfJoin` and `SplitExtDotfile` |
| Paths.SplitExtParts | file_organizer.py:67 | Stem followed by extension gives back the name; the extension is empty or one dot followed by neither a dot nor a `/` |
| Paths.SplitExtOfVisibleEntry | file_organizer.py:67 | For a name without `/` that does not start with `.`, the extension is empty exactly when there is no dot, and otherwise is the suffix from the last dot |
| Paths.SplitExtOfJoin | file_organizer.py:67-71 | Splitting a non-empty stem without `.` or `/`, followed by an empty or extension-shaped suffix, gives both back (non-empty matters: `.txt` alone has no extension) |
| Paths.SplitExtDotfile | file_organizer.py:67 | A name whose only dot leads it (`.bashrc`) has no extension |
| Paths.Join | file_organizer.py:58 | `os.path.join` of two components; characterized by `JoinShape` |
| Paths.JoinShape | file_organizer.py:112 | For a directory `a` that is non-empty and does not end with `/`, and an entry name `b` that is non-empty and has no `/`, the joined path splits back at its last `/` into exactly `a` and `b`, so the move destination is the file `b` inside `a`; in general `os.path.join(a, b)` ends with `b`, an absolute `b` replaces `a`, and otherwise `a` is a prefix with one `/` inserted only when `a` is non-empty and does not end with `/` |
| Paths.JoinSplitsBack | file_organizer.py:112 | The move destination `os.path.join(target_dir, filename)` is the file `filename` inside `target_dir`: for a non-empty directory not ending in `/` and a non-empty entry name without `/`, the last `/` of the joined path sits right after the directory, with the directory before it and the name after it |
| Categorizer.StripLeadingDots | file_organizer.py:89 | `lstrip('.')`; characterized by `StripLeadingDotsShape` |
| Categorizer.Token | file_organizer.py:89 | `extension.lstrip('.').upper()`, the key the classifier looks up; `TokenOfExtension` gives it for a `splitext` extension |
| Categorizer.StripLeadingDotsShape | file_organizer.py:89 | `lstrip('.')` removes a prefix of dots, all of it |
| Categorizer.TokenOfExtension | file_organizer.py:89 | The token of an extension as `splitext` returns it is the text after its dot, uppercased |
| Categorizer.GroupsDisjoint | file_organizer.py:92-97 | No token belongs to two named groups |
| Categorizer.FixedNamesDistinct | file_organizer.py:92-103 | The four fixed folder names are pairwise distinct, and no named token is empty |
| Categorizer.FallbackIsNotFixed | file_organizer.py:98-103 | A `"<TOKEN> Files"` label never equals one of the four fixed folder names |
| Categorizer.Category | file_organizer.py:89-103 | The classifier is total and never empty: `Images`, `Videos` or `Documents` exactly for tokens in their groups, `Uncategorized` exactly for the empty token, and `"<TOKEN> Files"` exactly for any other non-empty token |
| Categorizer.CategoryEqualIff | file_organizer.py:89-103 | Two extensions share a folder exactly when their tokens are equal or in the same named group |
| Categorizer.CategoryExamples | file_organizer.py:92-97 | `.jpg`, `.MOV` and `.Pdf` go to `Images`, `Videos` and `Documents` |
| Categorizer.CategoryFallbackExample | file_organizer.py:98-100 | `.zip` goes to `"ZIP Files"` |
| Categorizer.CategoryOfNoExtension | file_organizer.py:101-103 | No extension, and an extension that is only a dot, both give `Uncategorized` |
| Organizer.NewName | file_organizer.py:67-71 | `new_filename`: the normalized stem followed by the extension; characterized by `NewNameShape`, `NewNameUnchangedIff`, `SplitNewName`, `NewNameHiddenIff` and `NewNameStable` |
| Organizer.NewNameShape | file_organizer.py:67-71 | The new name is a normalized stem followed by the original extension, case included |
| Organizer.NewNameUnchangedIff | file_organizer.py:67-75 | The name is unchanged, so no rename is attempted, exactly when the stem is already normalized |
| Organizer.SplitNewName | file_organizer.py:67-71 | The new name has no `/`. Splitting it gives the normalized stem and the original extension when the normalized stem is non-empty. When the normalized stem is empty, the new name is hidden if there is an extension and empty if not |
| Organizer.NewNameHiddenIff | file_organizer.py:61-71 | The new name is hidden exactly when the normalized stem is empty and there is an extension |
| Organizer.NewNameStable | file_organizer.py:67-71 | Unless the new name is hidden, renaming it again changes nothing and keeps the extension |
| Organizer.NewNameExample | file_organizer.py:67-71 | `"My Photo.JPG"` becomes `"my_photo.JPG"` |
| Organizer.NewNameKeepsNormalName | file_organizer.py:74-75 | `"notes.txt"` keeps its name |
| Organizer.SeparatorStemBecomesHidden | file_organizer.py:67-71 | `"-.txt"` becomes the hidden name `".txt"` |
| Organizer.OrganizeFor | file_organizer.py:104-116 | The organize step: target `root/category`, destination `target/name`, and a move exactly when the folder differs from the target; `PlanFile` states it |
| Organizer.PlanWith | file_organizer.py:58-116 | The per-file decisions for a given new name and category; `PlanFile` states them for the actual new name and category |
| Organizer.PlanFile | file_organizer.py:58-116 | The entry is skipped exactly when it is a directory or hidden. A rename to `folder/newName` is planned exactly when the name changes. The later steps use the new name when the rename succeeded and the old one when it failed. With organizing on, the target is `root/category` and a move is planned exactly when the folder differs from it |
| Organizer.PlanFixedPoint | file_organizer.py:74-116 | A visible file with a normalized stem that already sits in its category folder is neither renamed nor moved |
| Organizer.HiddenFileSkipped | file_organizer.py:61-62 | `.DS_Store` is skipped in either mode |
| Organizer.Resolve | file_organizer.py:104-121 | Carries out a plan under the filesystem's answers: `makedirs` runs before the move test, a `shutil.Error` from the move is reported, and any other error raises; characterized by `ResolvePlanWith` |
| Organizer.ResolvePlanWith | file_organizer.py:104-121 | For any new name and category: skipped entries stay put; the outcome is raised exactly when organizing and `makedirs` fails or a needed move fails with a non-`shutil.Error`; the name is the new one exactly when the rename succeeded or was not needed; when organizing a visible file, it ends in `root/category` if it was elsewhere and the move went through, and in its own folder otherwise (already there, or `shutil.Error`); it leaves its folder only for `root/category` |
| Organizer.Apply | file_organizer.py:58-121 | The step of one entry: its plan carried out; characterized by `ApplyContract` |
| Organizer.ApplyContract | file_organizer.py:61-121 | Directories and hidden files stay as they are. The walk ends exactly when organizing and either `os.makedirs` fails or a needed move fails with an error other than `shutil.Error`. The file ends under its old or new name, the new one exactly when the rename succeeded or was not needed. When organizing a visible file, it ends in `root/category` if it was elsewhere and the move went through, and stays in its folder when already there or when the move raised `shutil.Error`. It leaves its folder only for `root/category` |
| Organizer.ApplyRaisesOnly | file_organizer.py:104-121 | Only the organize step raises, and only when `os.makedirs` fails or the move fails with an error other than `shutil.Error` |
| Organizer.Walk | file_organizer.py:56-57 | The steps run in order, and the walk stops right after the first step that raises; when no step raises, every entry is processed |
| Organizer.ProcessDirectory | file_organizer.py:49-121 | Each processed entry's outcome is its own step. Only the last outcome can be an exception, and it is one when the walk stopped early. Without organizing, or when no effect is harmful, every entry is processed |
| Organizer.SecondPassIsQuiet | file_organizer.py:58-121 | After a first run whose filesystem calls all succeeded, a second run that organizes only if the first did, and sees the entry as a directory exactly when the first did, finds the file where the first left it and neither renames nor moves it |

## Left out

- Command-line parsing and `main` (lines 6-27, 123-138) are left out, along with the validation that the root is a directory. They are I/O around the core.
- Console output (`print` on lines 53, 78, 83, 119, 121) is not modelled. Reported errors appear as ordinary `Done` outcomes.
- `os.path.abspath` (lines 53, 128) is not modelled. The root is taken as given.
- The order and contents of `os.walk` are inputs. The walk is the flattened list of `(folder, filename)` pairs, so the model does not say whether category folders created during the run are visited later.
- The filesystem effects of `os.rename`, `os.makedirs` and `shutil.move` are inputs rather than state. The model does not track which files exist. It also does not track whether a rename or move onto an existing name overwrites it or fails; that depends on the platform.
- Case mapping is ASCII only. Python's `str.lower` and `str.upper` also map non-ASCII letters.
- `posixpath`'s own source is not among the modelled files; `SplitExt` and `Join` follow its documented behaviour for POSIX paths. Windows path rules are not modelled.
