# exfatmirror in Dafny

exfatmirror copies a directory tree (`src`) onto an exFAT volume (`dst`).
The walk of the source tree is done with `os.walk`, and each walk step is
handled by `step`:

- The name of every entry below `src` is made acceptable to exFAT by
  `sanitise`. It drops the code points below 32 and the characters
  `/ \ : * ? " < > |`. Other control characters, such as DEL and the C1
  controls, are kept.
  It then cuts the stem so that stem and suffix together fit 255 characters;
  the suffix is the extension as pathlib splits it.
- Every name that `sanitise` alters is recorded in the global dictionary
  `changes`.
- `destination` maps a source path to its destination. It sanitises every
  part below `src` and drops the parts that become empty.
- `step` goes over the directories of one walk step, then over its files.
  Hidden entries (a name starting with `.`) are passed over.
  - A directory whose destination exists is reported as `skipping`.
    Otherwise it is reported as `creating` and created.
  - A file whose destination exists is passed over silently. Otherwise it
    is reported as `copying` and copied.

The model has four modules:

- `SeqFacts` (`seqs.dfy`): small facts about sequences that the proofs share.
- `ExfatNames` (`names.dfy`): `sanitise` as pure functions.
  - Filtering is the generator at line 18.
  - pathlib's `stem`/`suffix` split.
  - Python's slice `s[:k]`, including negative `k`.
- `ExfatPaths` (`paths.dfy`): `destination` as a pure function on paths.
  A path is the sequence of its pathlib parts; an absolute path starts with
  the part `"/"`.
- `ExfatMirror` (`mirror.dfy`): `step`.
  - The file system is abstracted as the set of paths that exist.
  - The printed report is a log of actions: `Skipping`, `Creating` and
    `Copying`, each with the entry's name and destination.
  - The specification functions `Visit`, `Pass` and `StepEffects` give the
    effect of one entry, of one loop and of a whole step.
  - `Record` gives what `changes` holds after a list of names has been
    sanitised in order.
  - The class `Mirror` holds the program's state: `changes`, the existing
    paths and the report. Its methods follow the program's loops, and their
    contracts tie them to those functions.

Behaviour of the code that the proofs make explicit:

- `sanitise` keeps at most 255 characters only while the suffix is at most
  255 characters long (`SanitiseShape`). A longer suffix makes the slice
  bound negative. The result is then longer than 255, and sanitising it again
  changes it (`SanitiseLongSuffix`, `SanitiseIdempotent`).
- The hidden-name test looks at the source name, not the sanitised one:
  `"?.foo"` is not hidden, yet its destination is the dot-name `".foo"`
  (`SanitiseMakesDotName`).
- `"?.."` sanitises to `".."` (`SanitiseMakesDotDot`).
- A name with no acceptable character sanitises to `""` and vanishes from
  the joined path. The entry then gets its directory's own destination
  (`EmptiedEntry`): a directory is reported as skipped once that exists, and
  a file is silently not copied.
- Two entries whose destinations coincide are made once: the later one is
  reported as skipped when it is a directory and passed over when it is a
  file (`PassLaterSkips`).
- Hidden directories are only skipped by `step`, not pruned from the walk.
  `os.walk` still descends into them, and later steps work on their entries.
  Nothing in `step` checks whether a walked directory is hidden, so the
  model claims nothing about that.

## Model

| member | source | states |
|---|---|---|
| ExfatNames.FilteredSpec | exfatmirror.py:18 | The filtered name holds only characters exFAT accepts, is no longer than the name, and equals it exactly when every character is accepted. |
| ExfatNames.Filtered | exfatmirror.py:18 | The filtered name is no longer than the name and holds only characters exFAT accepts. |
| ExfatNames.FilteredName | exfatmirror.py:18-19 | The name of `Path(characters)` holds only acceptable characters, is never `"."`, and is no longer than the name. |
| ExfatNames.FilteredNone | exfatmirror.py:18 | A name with no acceptable character filters to the empty string. |
| ExfatNames.FilteredAppend | exfatmirror.py:18 | Filtering works character by character: it distributes over concatenation. |
| ExfatNames.FilteredKeeps | exfatmirror.py:18 | A name of acceptable characters only is its own filtering. |
| ExfatNames.FilteredDrops | exfatmirror.py:18 | Forbidden characters between two runs of acceptable ones are dropped, and the runs are joined in order. |
| ExfatNames.RFind | exfatmirror.py:21-22 | The last-dot search behind `path.suffix`: the index lies in range, holds the character, and no later index does; -1 when there is none. |
| ExfatNames.SuffixStart | exfatmirror.py:21-22 | pathlib's suffix starts at the last dot when that dot is neither first nor last. Otherwise the suffix is empty, and every inner dot implies a trailing dot. |
| ExfatNames.SliceTo | exfatmirror.py:22 | Python's `stem[:available]` is a prefix of the stem. Its length is `min(k, len)` for `k >= 0` and `max(0, len + k)` for negative `k`. |
| ExfatNames.SanitisedName | exfatmirror.py:13-24 | The result of `sanitise` holds only characters exFAT accepts and is never ".". |
| ExfatNames.SplitName | exfatmirror.py:19-22 | Stem and suffix partition the name. A non-empty suffix is a dot, then at least one character, with no other dot, after a non-empty stem. |
| ExfatNames.SanitiseShape | exfatmirror.py:21-22 | The result ends with the suffix of the filtered name, verbatim, after a prefix of its stem. With a suffix of at most 255 characters its length is the filtered length capped at 255. The result fits 255 exactly when the suffix does. |
| ExfatNames.SanitiseFixpoint | exfatmirror.py:22-23 | `sanitise` returns a name unchanged, and so records nothing for it, exactly when the name is valid for exFAT: acceptable characters, not ".", at most 255 long. |
| ExfatNames.SanitiseIdempotent | exfatmirror.py:13-24 | Sanitising twice equals sanitising once exactly when the filtered name's suffix has at most 255 characters. |
| ExfatNames.SanitiseSeesFiltered | exfatmirror.py:18-22 | The result depends only on the filtered characters. When they form a valid name, that name is the result. |
| ExfatNames.SanitiseSameFiltered | exfatmirror.py:18-22 | Two names with the same filtered name sanitise alike. |
| ExfatNames.SanitiseDrops | exfatmirror.py:18-22 | Removing forbidden characters from between two acceptable runs that form a valid name yields exactly that name. |
| ExfatNames.DroppedValid | exfatmirror.py:18 | Such a name filters to the two runs joined, and that is a valid name. |
| ExfatNames.SanitiseWeirdName | exfatmirror.py:18-22 | `"weird<>name.txt"` becomes `"weirdname.txt"`. |
| ExfatNames.SanitiseLongStem | exfatmirror.py:21-22 | 300 `a`s plus `.txt` become 251 `a`s plus `.txt`: 255 characters, with the extension kept. |
| ExfatNames.SanitiseLongSuffix | exfatmirror.py:21-22 | `"x."` plus 300 `b`s becomes the 301-character `"."` plus 300 `b`s, which sanitising changes again. |
| ExfatNames.SanitiseMakesDotName | exfatmirror.py:18-22 | `"?.foo"` becomes the dot-name `".foo"`. |
| ExfatNames.SanitiseMakesDotDot | exfatmirror.py:18-22 | `"?.."` becomes `".."`. |
| ExfatNames.SanitiseNothingAllowed | exfatmirror.py:18-22 | A name with no acceptable character becomes `""`. |
| ExfatNames.SanitiseDot | exfatmirror.py:19-22 | `"."` and `".\|"` become `""`, because `Path('.')` has an empty name. |
| ExfatPaths.JoinSanitised | exfatmirror.py:36-37 | The joined sanitised parts are at most as many as the parts, and each is non-empty and made of acceptable characters. |
| ExfatPaths.DestinationPath | exfatmirror.py:26-37 | The result is defined exactly when `path` starts with the parts of `src` (the assertion at line 34). It then starts with `dst`, is at most as long as `dst` plus the parts below `src`, and adds only non-empty sanitised names. |
| ExfatPaths.JoinSanitisedAppend | exfatmirror.py:35-37 | Parts are sanitised one by one, in order: joining distributes over concatenation. |
| ExfatPaths.JoinSanitisedSnoc | exfatmirror.py:36-37 | One more part adds its sanitised name, unless that is empty. |
| ExfatPaths.JoinSanitisedClean | exfatmirror.py:36-37 | Parts that are already valid, non-empty names pass through unchanged. |
| ExfatPaths.DestinationRebase | exfatmirror.py:34-37 | Any path `src + rel` maps to `dst` followed by the sanitised `rel`; the parts of `src` are compared, never sanitised. |
| ExfatPaths.DestinationChild | exfatmirror.py:44 | `Path(root, name)` for a `root` under `src` maps to `dst`, then the sanitised parts of `root` below `src`, then the sanitised name. |
| ExfatPaths.DestinationClean | exfatmirror.py:34-37 | A path whose parts below `src` are valid names keeps them under `dst`. |
| ExfatPaths.DestinationExample | exfatmirror.py:26-37 | `/src/a/b.txt` under `/src` maps to `/dst/a/b.txt`. |
| ExfatPaths.DestinationOutsideExample | exfatmirror.py:34 | `/other/x` is not under `/src`: the assertion fails. |
| ExfatMirror.Dests | exfatmirror.py:44 | There is one destination per entry, and the k-th is the `destination` of `Path(root, names[k])` (`ChildDest`). |
| ExfatMirror.Visible | exfatmirror.py:43 | The entries kept are not hidden and are among the entries; every entry that is not hidden is kept. |
| ExfatMirror.VisibleAppend | exfatmirror.py:42-43 | The entries are picked out one by one, in order: picking distributes over concatenation. |
| ExfatMirror.Visit | exfatmirror.py:43-56 | One entry: a hidden one changes nothing and reports nothing. A visible one makes its destination exist. It reports exactly one action, except a file whose destination exists, which reports none. The action carries the entry's name and destination, is a skip exactly when the destination existed, and a copy exactly for a file. Exactly the destination that was missing is made. |
| ExfatMirror.Pass | exfatmirror.py:42-56 | One loop over the entries of one kind, in order: nothing that existed disappears, and there is at most one action per entry. |
| ExfatMirror.PassSpec | exfatmirror.py:42-56 | One loop makes only destinations that did not exist, each at most once, and afterwards they exist. It reports no hidden entry. Directories are created or skipped, files only copied. Each action is for one of the loop's entries, with that entry's destination. |
| ExfatMirror.PassCovers | exfatmirror.py:42-56 | After a loop, every non-hidden entry's destination exists, and nothing that existed has gone. |
| ExfatMirror.PassSettled | exfatmirror.py:45-54 | When every destination exists already, a loop makes nothing. A directory loop reports each visible entry as skipped, in order; a file loop reports nothing. |
| ExfatMirror.PassReportsDirs | exfatmirror.py:42-49 | The directory loop reports every visible directory, in order, and nothing else, whether it creates it or skips it. |
| ExfatMirror.PassLaterSkips | exfatmirror.py:44-56 | Every destination a loop reports exists afterwards. A later entry whose destination equals an earlier reported one is only reported as skipped, so two directories that sanitise alike are created once. |
| ExfatMirror.VisitKeepsMadeOnce | exfatmirror.py:45-56 | One entry keeps the report's invariant: nothing made twice, and everything made exists. |
| ExfatMirror.StepEffects | exfatmirror.py:39-56 | The directory loop, then the file loop: nothing that existed disappears, and there is at most one action per entry. |
| ExfatMirror.StepSpec | exfatmirror.py:39-56 | A step makes only destinations that did not exist, each once, and they exist afterwards. It reports no hidden entry, and it reports all its directories before its first copy. |
| ExfatMirror.StepKeepsMadeOnce | exfatmirror.py:39-56 | Across steps, the report never creates or copies to the same destination twice, and all of them exist. |
| ExfatMirror.StepComposes | exfatmirror.py:42-56 | The directory loop followed by the file loop, run on a report, yields StepEffects and keeps the report's invariant. |
| ExfatMirror.MadeAppend | exfatmirror.py:42-56 | Two reports in a row make the union of what each makes. They make each destination once when each does and they are disjoint. |
| ExfatMirror.StepRerun | exfatmirror.py:45-54 | Running a step again over what it left makes nothing. It only reports the directories, as skipped. |
| ExfatMirror.StepExample | exfatmirror.py:39-56 | Mirroring a directory `d` and a file `f.txt` from the top of `/src` into an otherwise empty `/dst` reports `creating` for `/dst/d`, then `copying` for `/dst/f.txt`, and both then exist. |
| ExfatMirror.StepTopEntries | exfatmirror.py:39-56 | The same for any valid, non-hidden directory and file names whose destinations are missing and distinct. |
| ExfatMirror.StepOneEach | exfatmirror.py:42-56 | A step over one directory and one file with missing, distinct destinations creates the first, then copies the second. |
| ExfatMirror.TopDests | exfatmirror.py:44 | An entry of the source root with a valid name has its own name below `dst` as its destination. |
| ExfatMirror.CleanDest | exfatmirror.py:36-37 | The same fact for `ChildDest`. |
| ExfatMirror.EmptiedEntry | exfatmirror.py:36-54 | An entry whose name has no acceptable character gets its directory's own destination. Once that exists, a directory of that name is skipped with a report and a file silently. |
| ExfatMirror.EmptiedDest | exfatmirror.py:36-37 | That entry's destination is the directory's. |
| ExfatMirror.RootDestination | exfatmirror.py:41 | The walked directory, being under `src`, has a destination: `dst` followed by its sanitised parts below `src`. |
| ExfatMirror.ChildDest | exfatmirror.py:44 | The destination of `Path(root, name)` starts with `dst`, has at most one part per part below `src`, and adds only non-empty names of acceptable characters. |
| ExfatMirror.Record | exfatmirror.py:23 | After sanitising a list of names, `changes` keeps every earlier key and gains only keys among those names. |
| ExfatMirror.RenamingsAdd | exfatmirror.py:23 | Recording the renamings of two groups of names in turn records those of their union. |
| ExfatMirror.RenamingsOne | exfatmirror.py:23 | Recording one name adds its renaming exactly when sanitising alters it. |
| ExfatMirror.RecordSnoc | exfatmirror.py:23 | Sanitising one more name records it exactly when the name changes. |
| ExfatMirror.RecordAppend | exfatmirror.py:23 | Sanitising two lists in a row records what sanitising their concatenation records. |
| ExfatMirror.RecordSet | exfatmirror.py:11-23 | Whatever the order and however often a name recurs, `changes` gains exactly the renaming of every distinct name that sanitising alters. |
| ExfatMirror.PartsAppend | exfatmirror.py:23 | The distinct names of two lists are those of each. |
| ExfatMirror.RecordEntry | exfatmirror.py:43-52 | A hidden entry records nothing. Any other entry records the parts of its directory below `src`, then its own name. |
| ExfatMirror.EntryPartsParts | exfatmirror.py:43-52 | The distinct names sanitised for a directory's entries are its visible entries' names, plus the directory's parts when some entry is visible. |
| ExfatMirror.StepRecords | exfatmirror.py:41-52 | A whole step records the renaming of every part of the walked directory below `src` and of every visible entry, and nothing else. |
| ExfatMirror.DestinationStep | exfatmirror.py:36 | One more part: its sanitised name joins the path unless it is empty. |
| ExfatMirror.PassSnoc | exfatmirror.py:42-56 | One more entry: the loop over the longer prefix is the loop over the shorter one followed by a visit of the entry. |
| ExfatMirror.PassEntry | exfatmirror.py:42-56 | The same, with each entry's own destination. |
| ExfatMirror.ChildDestination | exfatmirror.py:44-52 | An entry of a directory under `src` is under `src`; `destination` gives it its place below `dst`. |
| ExfatMirror.Mirror.constructor | exfatmirror.py:11 | The program starts with `changes` empty, an empty report and the given existing paths; the invariant holds. |
| ExfatMirror.Mirror.Sanitise | exfatmirror.py:13-24 | Returns the sanitised name and stores it under the name in `changes` exactly when they differ; nothing else changes. |
| ExfatMirror.Mirror.Destination | exfatmirror.py:26-37 | Fails, changing nothing, when `path` is not under `src`. Otherwise it returns DestinationPath's result and records, in order, the renaming of every part below `src`. |
| ExfatMirror.Mirror.Enter | exfatmirror.py:43-56 | One loop iteration: the existing paths and the report change as Visit says. `changes` gains the renamings of the entry's path below `src` unless the entry is hidden. The invariant that nothing is made twice and all made paths exist is kept. |
| ExfatMirror.Mirror.EntryDestination | exfatmirror.py:44 | Returns the entry's `ChildDest` and records the renamings of the parts of `root` below `src`, then of the entry's name. |
| ExfatMirror.Mirror.Place | exfatmirror.py:45-56 | For a visible entry with a known destination: the existing paths and the report change as Visit says, and the invariant is kept. |
| ExfatMirror.Mirror.VisitEntries | exfatmirror.py:42-56 | One whole loop: the existing paths and the report change as Pass says, and `changes` as the names sanitised for the visible entries. The invariant is kept. |
| ExfatMirror.Mirror.Step | exfatmirror.py:39-56 | A step succeeds exactly when `root` is under `src`. On failure nothing changes. On success the paths and the report change as StepEffects says. `changes` gains exactly the renamings of the parts of `root` below `src` and of the visible entries. The invariant that no destination is made twice and all made ones exist is kept. |

## Left out

- Real input and output are not modelled. The file system is the set of
  paths that exist. `os.path.exists`, `os.mkdir` and `shutil.copy` only test
  and extend that set, and never fail. In the program, `mkdir` and `copy`
  can fail for lack of space, of permission, or of a parent directory. The
  last case arises for the entries of a hidden directory, which is skipped
  but still walked.
- The printed report lines are actions carrying the entry's name and
  destination; the text formatting of `print` is not modelled.
- `os.walk`, the command-line arguments and the `__main__` block are not
  modelled. A step is given its walk step: a root path, directory names and
  file names. The sequence of steps is represented only by
  `StepKeepsMadeOnce`, which carries the report's invariant from one step to
  the next.
- Paths are given as their pathlib parts. The parsing of path strings by
  `Path(...)` is not modelled, nor Windows path flavours.
- ExfatMirror.Mirror.Step: requires that every entry name is non-empty and
  has no `/`, as `os.walk` yields them, so that `Path(root, name)` has the
  parts of `root` followed by `name`.
- The assertion in `destination` raises `AssertionError` and ends the
  program. The model returns `None` from `Destination` and `false` from
  `Step`, with nothing changed; the assertion comes before any `sanitise`
  call.
- Lengths are counted in code points, as Python counts them. exFAT's own
  limit counts UTF-16 units, which is not modelled. Lone surrogate code
  points, which `os.walk` can yield for undecodable names, are not Dafny
  characters and are not modelled.
- The suffix rule is pathlib's up to Python 3.13. Python 3.14 changed the
  treatment of a single trailing dot, which is not modelled.
- `changes` is a Python dictionary that remembers insertion order; the model
  keeps it as a map, without that order.
- ExfatMirror.Visit, ExfatMirror.Pass and ExfatMirror.StepEffects: whether
  a destination exists is decided by literal equality of part sequences.
  `os.path.exists` asks the real file system, which resolves `..`, follows
  symbolic links and, on exFAT, compares names without regard to case. So
  an entry `"?.."` of the source root gets the destination `dst + [".."]`,
  which the model creates while the program finds `dst/..` and reports it
  as skipped. Two entries `Foo` and `foo` are both created in the model,
  while the program creates the first and skips the second.
