# Identificator: the numbering core, in Dafny

Identificator is a small batch renamer. You point it at a destination
directory and a set of files, pick an "author" (an identifier), and it moves
every file into the directory as `author-N.ext`. Each `N` is one of the
smallest numbers not yet used for that author in the directory.

This project models the part of `Identificator.py` that decides those names:

- **Matching** (`pattern.dfy`, module `Pattern`): the two patterns
  `^(.+?)-\d+\..+$` and `^.+?-(\d+)\..+$`, as Python's `re.match` applies
  them. The `.+?` group is non-greedy, so the leftmost admissible hyphen
  wins. `.` refuses '\n', and `$` also matches before one final '\n'. The
  matcher is a function (`Match`), and its soundness and completeness
  (`MatchSpec`) are proved against a declarative description: `MatchesAt`
  plus `LeftmostAt`, which picks the match with the shortest identifier.
- **Discovering authors and busy numbers** (`scanner.dfy`, module
  `Scanner`):
  - the discovery loop of `get_authors` (`Collect`), followed by the sort
    (`Authors`);
  - the list comprehension of `get_busy_numbers` (`NumbersFor`), with its
    two independent tests: the raw name starts with `author + "-"`, and the
    number pattern matches.
- **Allocation and the plan** (`renaming.dfy`, module `Renaming`):
  - the `while` loop that counts up from 1 and keeps unused numbers
    (`AllocateFree`, a method with loop invariants);
  - the comprehension that pairs the selected files with those numbers
    (`NewNames`).
- **The window's state** (`app.dfy`, module `Identificator`): class `App`
  holds the destination directory, the listing (fixed for the session), the
  selected files, `authors`, the `busyNumbers` cache and `newFiles`.
  - `GetAuthors` and `GetBusyNumbers` update the fields as the source does.
  - `RenameFiles` runs the numbering step of `rename_files` and returns the
    moves it would perform.
- **Helpers** (`text.dfy`, `paths.dfy`): the Python string operations the
  core relies on, namely:
  - `str.strip` over Python's whitespace set;
  - `int()` and `str()` on decimal digits;
  - the code-point order that `list.sort()` uses on strings;
  - `os.path.join` and the extension part of `os.path.splitext`, over the
    single separator '/'.

The main results:

- The allocation returns exactly the requested count of numbers. They are
  at least 1, unused, strictly ascending and minimal, and this answer is
  unique.
- A built name `author-N.ext` reads back as identifier `author` and number
  `N`, provided `author` is non-empty, holds no newline and holds no
  `-<digits>.` window after its first character, and the extension has at
  least one character after the dot and no newline. Under these conditions, once the name
  is listed, `N` is busy for that author, and a later run never reuses it.
- Outside these conditions the guarantee is lost:
  - An extensionless source file. `ExtensionlessSourceCanCollide` exhibits
    a plan that targets a name that is already listed.
  - An author such as "X-1.y" with a `-<digits>.` window. The number
    pattern splits "X-1.y-2.jpg" at its first hyphen, so only 1 is busy,
    and `WindowAuthorCanCollide` exhibits "a.jpg" planned onto the listed
    "X-1.y-2.jpg".
- The author list is sorted, has no duplicates, and holds exactly the
  stripped identifiers of the matching names.
- The busy-number cache is filled once per author and never changes an
  entry.

Three points where the tool's behaviour could be read more than one way
follow the code as written:

- The identifier split is the leftmost admissible hyphen (the non-greedy
  group), not the last `-digits.ext` suffix.
- Authors are sorted after discovery.
- The plan is built with `zip`, which stops at the shorter list, instead of
  failing on unequal lengths. The allocation always yields exactly
  `len(prev_files)` numbers, so the two never differ inside `RenameFiles`.

## Model

| member | source | states |
|---|---|---|
| `Pattern.DigitGroupForced` | Identificator.py:41-42 | For a fixed hyphen position, the only digit group that can be followed by the dot is the maximal digit run (`\d+` cannot backtrack into a match). |
| `Pattern.TryAtSpec` | Identificator.py:41-42 | Trying one hyphen position finds the match there if one exists, and otherwise reports that no match has its hyphen there. |
| `Pattern.SearchFromSpec` | Identificator.py:41-42 | Scanning hyphen positions from `k` upward finds the match with the smallest hyphen position at or after `k`, or proves there is none; a newline stops the scan because `.+?` cannot cross it. |
| `Pattern.Match` | Identificator.py:41-42 | `re.match` of either pattern: the hyphen and dot positions of the match. Its own contract bounds them and makes the text between a digit run; what match it reports is specified by `MatchSpec` and `MatchIsLeftmost`. |
| `Pattern.MatchSpec` | Identificator.py:41-42 | `re.match` of either pattern is sound and complete: it reports the leftmost match, and reports nothing exactly when no split of the name matches. |
| `Pattern.MatchIsLeftmost` | Identificator.py:41-42 | Conversely, any split with the shortest identifier group is the one the matcher reports. |
| `Pattern.MatchId` | Identificator.py:170-173 | `REGEX_GET_ID.match(name).group(1)`. No contract of its own; specified by `MatchIdSpec`. |
| `Pattern.MatchIdSpec` | Identificator.py:41 | The identifier group is a proper prefix of the name ending at the hyphen of the leftmost match, and is absent exactly when no split matches. |
| `Pattern.MatchNum` | Identificator.py:180-183 | `int(REGEX_GET_NUM.match(name).group(1))`. No contract of its own; specified by `MatchNumSpec`. |
| `Pattern.MatchNumSpec` | Identificator.py:42 | The number is `int()` of the digits between the hyphen and the dot of the leftmost match, and is absent exactly when no split matches. |
| `Pattern.IdAndNumAgree` | Identificator.py:41-42 | The two patterns accept exactly the same names. |
| `Pattern.NoEarlySplit` | Identificator.py:41-42 | In `author-ds.ext` with no `-<digits>.` window inside `author`, no match puts its hyphen inside `author`, and a match at the hyphen after `author` takes exactly `ds`. |
| `Pattern.BuiltNameSplit` | Identificator.py:41-42 | `author-ds.ext` is split right after `author` (non-empty, newline-free, no `-<digits>.` window of its own; extension a dot plus a tail `.+$` accepts). |
| `Pattern.DigitNameMatches` | Identificator.py:41-42 | Under those conditions the identifier group is `author` and the number is `int(ds)`. |
| `Pattern.BuiltNameRoundTrip` | Identificator.py:121 | Round trip: for a non-empty, newline-free `author` with no `-<digits>.` window after its first character, and an extension that is a dot plus a tail `.+$` accepts, the name built from `author` and `num` reads back as identifier `author` and number `num`. |
| `Pattern.ExtensionlessNameIgnored` | Identificator.py:121 | For an `author` with no `-<digits>.` window after its first character, a name built from a source without extension (`author-num`) or with a bare final dot (`author-num.`) is matched by neither pattern. |
| `Pattern.SplitSkipsHyphenNotFollowedByDot` | Identificator.py:41-42 | "A-1-2.jpg" has identifier "A-1" and number 2: a hyphen whose digit run is not followed by '.' is skipped. |
| `Pattern.SplitTakesLeftmostHyphen` | Identificator.py:41-42 | "X-1.y-2.jpg" has identifier "X" and number 1: the leftmost admissible hyphen wins, even inside what was meant as the author. |
| `Pattern.PlainNameNotMatched` | Identificator.py:41-42 | "readme.txt" matches neither pattern. |
| `Pattern.LeadingZerosCollapse` | Identificator.py:42 | "Dan-007.jpg" has identifier "Dan" and number 7. |
| `Text.Strip` | Identificator.py:173 | `str.strip()`: the result is an infix of the input with only whitespace cut off on either side, it neither starts nor ends with whitespace, and it is empty exactly when the input is all whitespace. |
| `Text.StripIdempotent` | Identificator.py:110 | Stripping twice is stripping once. |
| `Text.StripOneLeadingSpace` | Identificator.py:173 | A single leading whitespace character in front of a word is all that stripping removes. |
| `Text.DecimalValue` | Identificator.py:183 | `int()` of a digit run. No contract of its own; specified by `DecimalRoundTrip`, `DecimalCanonical` and `LeadingZeroIgnored`. |
| `Text.Decimal` | Identificator.py:121 | `f"{num}"` is a non-empty digit run without a leading zero. |
| `Text.DecimalRoundTrip` | Identificator.py:183 | `int(str(n)) == n`. |
| `Text.DecimalCanonical` | Identificator.py:183 | `str(int(ds)) == ds` for a digit run without a leading zero. |
| `Text.LeadingZeroIgnored` | Identificator.py:183 | A leading zero does not change `int()`. |
| `Text.LessTransitive` | Identificator.py:177 | The string order of `sort()` is transitive. |
| `Text.LessTotal` | Identificator.py:177 | The string order of `sort()` is total. |
| `Text.InsertSpec` | Identificator.py:177 | Inserting into a sorted list keeps it sorted and adds exactly one occurrence. |
| `Text.SortStrings` | Identificator.py:177 | `list.sort()` on strings. No contract of its own; specified by `SortStringsSpec` and `SortStringsMembers`. |
| `Text.SortStringsSpec` | Identificator.py:177 | `sort()` leaves the list in order and a permutation of the input. |
| `Text.SortStringsMembers` | Identificator.py:177 | Sorting keeps exactly the same elements and keeps a duplicate-free list duplicate-free. |
| `Text.SortPair` | Identificator.py:177 | Two strings already in order sort to themselves. |
| `Paths.Join` | Identificator.py:121 | `os.path.join(dest, name)` is `dest`, one separator, then `name`. |
| `Paths.JoinInjective` | Identificator.py:121 | Under one directory, different names give different paths. |
| `Paths.Ext` | Identificator.py:121 | The extension is empty or a suffix of the path starting with '.', with no further '.' or separator in it; it is non-empty exactly when the final path component has a '.' after some non-dot character, so it runs from the last '.' of that component. |
| `Paths.ExtExamples` | Identificator.py:121 | "/src/a.jpg" has extension ".jpg"; "/src/.bashrc" and "/src.d/readme" have none. |
| `Scanner.Counted` | Identificator.py:183-186 | The number one listed name contributes to `busy_numbers[author]`. No contract of its own; specified through `NumbersForMembers`. |
| `Scanner.NumbersFor` | Identificator.py:182-187 | The comprehension of `get_busy_numbers` yields at most one number per listed name. |
| `Scanner.NumbersForMembers` | Identificator.py:182-187 | A number is busy for `author` exactly when some listed name both starts with `author + "-"` and has that number under the number pattern. |
| `Scanner.NumbersForAppend` | Identificator.py:182-187 | The comprehension keeps listing order: over a concatenated listing it is the concatenation of the results. |
| `Scanner.NumbersForOne` | Identificator.py:182-187 | A one-name listing whose name passes the prefix test and the number pattern yields exactly that name's number. |
| `Scanner.UnmatchedNameIgnored` | Identificator.py:185 | A name the number pattern rejects contributes nothing, whatever the author. |
| `Scanner.PrefixTestIsExact` | Identificator.py:186 | The prefix test is on the raw name: " Bob-1.txt" gives "Bob" no number, although its stripped identifier is "Bob". |
| `Scanner.BuiltNameIsBusy` | Identificator.py:121 | Once a name built for `author` and `num` (under the round-trip conditions) is listed, `num` is busy for `author`. |
| `Scanner.SampleName` | Identificator.py:172-173 | A listed name `author-ds.ext`, whose author has no surrounding whitespace, has stripped identifier `author` and number `int(ds)`. |
| `Scanner.ExampleNameAlice1` | Identificator.py:172-186 | "Alice-1.jpg" has identifier "Alice" and counts 1 for "Alice", nothing for "Bob". |
| `Scanner.ExampleNameAlice2` | Identificator.py:172-186 | "Alice-2.png" has identifier "Alice" and counts 2 for "Alice", nothing for "Bob". |
| `Scanner.ExampleNameBob1` | Identificator.py:172-186 | "Bob-1.txt" has identifier "Bob" and counts 1 for "Bob", nothing for "Alice". |
| `Scanner.ListingExample` | Identificator.py:169-187 | For the listing "Alice-1.jpg", "Alice-2.png", "Bob-1.txt": discovery yields "Alice", "Bob" (also after sorting), "Alice" has busy numbers 1, 2 and "Bob" has 1. |
| `Scanner.StrippedId` | Identificator.py:171-173 | `match.group(1).strip()` of one listed name. No contract of its own; specified by `SampleName`, `PrefixTestIsExact` and `CollectMembers`. |
| `Scanner.Collect` | Identificator.py:171-175 | The discovery loop keeps the entries it started with as a prefix and introduces no duplicate. |
| `Scanner.CollectMembers` | Identificator.py:171-175 | After the loop the list holds exactly the initial entries plus the stripped identifier of every matching name. |
| `Scanner.CollectSnoc` | Identificator.py:171-175 | One more name extends the loop by exactly one step. |
| `Scanner.CollectPrefixStep` | Identificator.py:171-175 | The loop over the first `i + 1` names is one step past the loop over the first `i`. |
| `Scanner.AddAuthorFacts` | Identificator.py:173-175 | One step appends the name's stripped identifier if it is new, and nothing else. |
| `Scanner.Authors` | Identificator.py:169-177 | The author list `get_authors` leaves. No contract of its own; specified by `AuthorsSpec`. |
| `Scanner.AuthorsSpec` | Identificator.py:169-177 | The author list is sorted, has no duplicates, and holds exactly the stripped identifiers of the matching listed names. |
| `Renaming.AllocateFree` | Identificator.py:113-118 | The loop returns exactly `count` numbers: each at least 1 and unused, strictly ascending, every unused number up to the last one taken, each at most `count + |used|` (so the loop ends). |
| `Renaming.LowestFreeUnique` | Identificator.py:113-118 | At most one answer meets that description, so the allocation is determined by `used` and `count`. |
| `Renaming.LowestFreeAgree` | Identificator.py:113-118 | Two answers that meet the description agree on every prefix. |
| `Renaming.LowestFreeStep` | Identificator.py:113-118 | If two answers agree on the first `k` places, the second is no larger at place `k`. |
| `Renaming.AllocateAfterTaken` | Identificator.py:113-118 | Used {1, 2, 3} with two files gives exactly 4, 5. |
| `Renaming.AllocateFromEmpty` | Identificator.py:113-118 | Nothing used with three files gives exactly 1, 2, 3. |
| `Renaming.AllocateAroundGap` | Identificator.py:113-118 | Used {2} with two files gives exactly 1, 3. |
| `Renaming.AllocateBelowTaken` | Identificator.py:113-118 | Used {7} with one file gives exactly 1. |
| `Renaming.AllocateAboveOne` | Identificator.py:113-118 | Used {1} with one file gives exactly 2. |
| `Renaming.NewName` | Identificator.py:121 | The f-string `f"{author}-{num}{ext}"`. No contract of its own; specified by `BuiltNameRoundTrip`, `NewNameInjective` and `NewNameNotListed`. |
| `Renaming.NewNames` | Identificator.py:120-123 | One path per file-number pair, in file order, as long as the shorter list: path `i` is `join(dest, author-num_i + ext(file_i))`. |
| `Renaming.NewNameInjective` | Identificator.py:121 | Two names built for one author are equal only if their numbers are equal, whatever the extensions. |
| `Renaming.NewNamesDistinct` | Identificator.py:120-123 | Distinct numbers give distinct destination paths: a plan never moves two files onto one name. |
| `Renaming.ExtAfterFirstChar` | Identificator.py:121 | A one-character stem followed by a dot-led suffix has that suffix as its extension. |
| `Renaming.NewNamesOfTwo` | Identificator.py:120-123 | Two files and two numbers give exactly two paths, in file order. |
| `Renaming.FirstPlannedPath` | Identificator.py:121 | "a.jpg" with number 3 for "Carol" under "/dest" goes to "/dest/Carol-3.jpg". |
| `Renaming.SecondPlannedPath` | Identificator.py:121 | "b.png" with number 4 for "Carol" under "/dest" goes to "/dest/Carol-4.png". |
| `Renaming.PlanExample` | Identificator.py:120-123 | Files "a.jpg", "b.png" with numbers 3, 4 give "/dest/Carol-3.jpg", then "/dest/Carol-4.png". |
| `Renaming.NewNameNotListed` | Identificator.py:112-123 | For a non-empty, newline-free author with no `-<digits>.` window after its first character, and a source whose extension has at least one character after the dot and no newline, a planned name never equals a name already listed. |
| `Renaming.RerunAvoidsPlannedNumbers` | Identificator.py:110-123 | For a non-empty, newline-free author with no `-<digits>.` window after its first character, and sources whose extensions have at least one character after the dot and no newline: after the planned names are listed, a later allocation for the same author avoids every number they carry. |
| `Renaming.UndottedNameCountsNothing` | Identificator.py:182-187 | "Bob-1" gives "Bob" no busy number. |
| `Renaming.NotesHasNoExtension` | Identificator.py:121 | "/src/notes" has no extension. |
| `Renaming.ExtensionlessSourceCanCollide` | Identificator.py:110-123 | With "Bob-1" listed, the extensionless "/src/notes" is allocated 1 and planned onto "Bob-1", a name already in the directory. |
| `Renaming.WindowNameCountsFirstNumber` | Identificator.py:182-187 | With only "X-1.y-2.jpg" listed, the busy numbers of "X-1.y" are exactly [1], not [2]. |
| `Renaming.WindowPlannedName` | Identificator.py:121 | "a.jpg" with number 2 for "X-1.y" is planned as "X-1.y-2.jpg". |
| `Renaming.WindowAuthorCanCollide` | Identificator.py:110-123 | With "X-1.y-2.jpg" listed, the author "X-1.y" is allocated 2 and "a.jpg" is planned onto "X-1.y-2.jpg", a name already in the directory. |
| `Identificator.App.constructor` | Identificator.py:69-73 | Starts with an empty cache and no new files, then runs `get_authors`, so the author list is that of the listing. |
| `Identificator.App.GetAuthors` | Identificator.py:169-177 | `authors` becomes the sorted result of the discovery loop run over the listing from the previous `authors`; the loop is proved against `Collect` by its invariant. |
| `Identificator.App.GetBusyNumbers` | Identificator.py:179-187 | Compute-once: a cached author leaves the map unchanged; otherwise exactly one entry is added, holding that author's busy numbers; the cache stays consistent with the listing. |
| `Identificator.App.RenameFiles` | Identificator.py:104-151 | An empty author box changes nothing. Otherwise the stripped author is cached, `newFiles` is the plan for the unique lowest free numbers (one path per selected file), and a confirmed dialog yields the moves `(prev_files[i], new_files[i])` in order. |

## Left out

- The Qt user interface: the window, the combo box, the buttons, the message boxes and the confirmation dialog (Identificator.py:44-102, 125-139). The confirmation is a boolean input of `RenameFiles`, and the messages are the outcome values `AuthorMissing` and `Cancelled`.
- The details text shown in the confirmation dialog (Identificator.py:125-127). It is presentation only.
- `shutil.move` and the `try` loop that stops at the first failure (Identificator.py:141-149). This is file system I/O; `RenameFiles` returns the moves it would perform, in order.
- `open_explorer` (Identificator.py:153-167). It starts an external program.
- Argument parsing, application start-up, `forced_exit` and the file and directory dialogs of `__init__` (Identificator.py:44-67, 189-211). They are process plumbing; the constructor takes the destination, the listing and the selected files as inputs.
- `os.listdir` is a fixed sequence of names given to the constructor. The model does not capture a directory that changes during the session, so it cannot show the cache going stale.
- `os.path.join`, `os.path.splitext` and `os.path.abspath` are reduced to string functions over the single separator '/'. Drive letters, '\\' separators and absolute second arguments are not modelled.
- `Pattern.MatchNumSpec`: `\d` and `int()` accept only the ASCII digits '0'..'9' here. Python also accepts other Unicode decimal digits.
- `Text.Strip`: the whitespace set is written out as the code points of Python's `str.isspace()`. Python's internal Unicode tables are not consulted.
- `Identificator.App.GetBusyNumbers`: it states only the cache half of `Valid()`. `authors` is outside its frame, so the other half cannot change.
- `Identificator.App.RenameFiles`: the same applies; it states only the cache half of `Valid()`.
