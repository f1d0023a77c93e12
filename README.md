# update-version.py in Dafny

`update-version.py` keeps the version references in `README.md` in step with the
base image of the `Dockerfile`. It reads the date of the leftmost
`FROM ubuntu:jammy-YYYYMMDD` line of the Dockerfile. It then rewrites every
`v3.7.4-YYYYMMDD` in the README so that it carries that date, and it reports how
many references it found. Its exit code is 0 on success and 1 when a file is
missing or the Dockerfile has no dated base image.

The model is functional, as the script is:

- `text.dfy` (module `Text`) holds the character classes `\d` and `\s` and the `YYYYMMDD` shape.
- `dockerfile_date.dfy` (module `DockerfileDate`) models `extract_date_from_dockerfile`.
  - A hand-written matcher covers `FROM\s+ubuntu:jammy-(\d{8})`. It is a greedy whitespace run, then literal checks.
  - `SearchFrom` is the scan of `re.search`, and `ValueError` is a `Result` variant.
  - The scanner is proved against a separate declarative definition of a match, `BaseImageAt`, and of the leftmost match, `FirstBaseImage`.
- `readme_versions.dfy` (module `ReadmeVersions`) models `update_readme_versions`.
  - `FindAll` and `Substitute` are the left-to-right, non-overlapping scans of `re.findall` and `re.sub` for `(v3\.7\.4-)(\d{8})`.
  - They are proved against a declarative definition of the reported match positions, `LeftmostNonOverlapping`, and that definition is proved to have a single solution.
- `update_version.dfy` (module `UpdateVersion`) models `main` as the function `Run`.
  - Its inputs are the Dockerfile text and the README text, each `None` when the file does not exist.
  - It returns the exit code and the README text written back (`None` when README.md is left untouched).

The Dockerfile pattern is not anchored to a line, and it accepts any run of whitespace after `FROM`. So `XFROM\tubuntu:jammy-…` inside a comment also matches. The script's own comment at update-version.py:25 shows only the single-space form `FROM ubuntu:jammy-YYYYMMDD`. The model follows the regular expression that the code uses.

## Model

| member | source | states |
|---|---|---|
| `DockerfileDate.SkipSpaces` | update-version.py:26 | the greedy `\s+` run: every character it passes is whitespace and it stops at the end of the text or at a non-whitespace character |
| `DockerfileDate.MatchAt` | update-version.py:26 | when the pattern is tried at a position and succeeds, the text there really is `FROM`, whitespace, `ubuntu:jammy-`, eight digits, and the returned position is the date group |
| `DockerfileDate.MatchAtComplete` | update-version.py:26 | every match of the pattern at a position is found by the matcher, with the date group at the right place |
| `DockerfileDate.WhitespaceRunUnique` | update-version.py:26 | at a given start the pattern can match in only one way (the whitespace run is determined) |
| `DockerfileDate.SearchFrom` | update-version.py:27-32 | the search yields either eight ASCII digits or `ValueError` with the script's message |
| `DockerfileDate.ExtractDate` | update-version.py:11-32 | the extracted date is exactly eight ASCII digits; failure carries the message "Could not find Ubuntu base image with date pattern in Dockerfile" |
| `DockerfileDate.SearchFromSound` | update-version.py:27-32 | a search from a point before which nothing matches fails only when nothing matches anywhere, and on success returns the date group of the leftmost match |
| `DockerfileDate.SearchFromFindsFirst` | update-version.py:27-32 | a search started at or before the leftmost match returns that match's date group |
| `DockerfileDate.ExtractDateFailsIffNoMatch` | update-version.py:26-30 | extraction raises `ValueError` if and only if no position of the text holds `FROM`, whitespace, `ubuntu:jammy-` and eight digits |
| `DockerfileDate.ExtractDateFound` | update-version.py:26-32 | a successful extraction returns the eight characters after the prefix of the leftmost match |
| `DockerfileDate.ExtractDateIsLeftmost` | update-version.py:23-32 | the leftmost match decides the result: earlier `FROM … ubuntu:jammy-` prefixes without eight digits are skipped and digits after the eighth are ignored |
| `ReadmeVersions.FindAll` | update-version.py:49-52 | `re.findall` yields one `(group1, group2)` pair per match. The model keeps group 2, the date, because group 1 is always `v3.7.4-` and the script uses only the number of pairs. Every kept group is an eight-digit date, and the matches do not overlap (15 characters each) |
| `ReadmeVersions.Substitute` | update-version.py:49-55 | the rewritten text grows by `len(new_date) - 8` per match; with an eight-character date its length is unchanged |
| `ReadmeVersions.UpdateReadme` | update-version.py:35-60 | the rewritten README has the input's length, and its occurrences are exactly `count` in number and all carry `new_date` |
| `ReadmeVersions.Starts` | update-version.py:52-55 | the positions the scan reports from a point on lie after that point, are matches, and are increasing and non-overlapping |
| `ReadmeVersions.StartsComplete` | update-version.py:52-55 | every match the scan does not report starts strictly inside a reported one |
| `ReadmeVersions.StartsIsLeftmostNonOverlapping` | update-version.py:52-55 | the scan's positions satisfy the declarative definition of left-to-right, non-overlapping matching |
| `ReadmeVersions.NoMatchSkipped` | update-version.py:52-55 | take two lists P and Q that meet that definition and share their first n matches. If P has an (n+1)-st match, then Q has one too, and it is no later than P's. Applying this both ways gives agreement |
| `ReadmeVersions.LeftmostNonOverlappingUnique` | update-version.py:52-55 | the definition has only one solution, so the matches `re.findall` and `re.sub` use are determined by the text |
| `ReadmeVersions.FindAllFrom` | update-version.py:52 | the model of `re.findall` has one entry per reported position. The entry is the pair's second element: the eight characters after the prefix |
| `ReadmeVersions.SubstituteFromCovered` | update-version.py:55 | inside the date group of a reported match the rewrite holds `new_date` |
| `ReadmeVersions.SubstituteFromUncovered` | update-version.py:55 | every character outside the date groups of the reported matches is copied unchanged |
| `ReadmeVersions.SubstituteAtMatch` | update-version.py:49-55 | after the rewrite, each reported match reads `v3.7.4-` followed by `new_date` |
| `ReadmeVersions.UpdateReadmeRewritesMatches` | update-version.py:49-60 | for the matches P: the count is the number of matches (those already carrying `new_date` included), each keeps its `v3.7.4-` prefix and carries `new_date`, and all other characters are unchanged (digits after the eighth and the text between matches included) |
| `ReadmeVersions.UpdateReadmeCountsAllDates` | update-version.py:52-60 | the returned count equals the number of pairs `re.findall` finds. The second element of the k-th pair is the old date of the k-th match |
| `ReadmeVersions.SubstituteKeepsMatchAtStart` | update-version.py:49-55 | rewriting neither creates nor destroys a match at the scan position |
| `ReadmeVersions.FindAllAfterSubstitute` | update-version.py:49-55 | the rewritten text has as many matches as the original, and each of them carries the new date |
| `ReadmeVersions.SubstituteTwice` | update-version.py:55 | rewriting with one date and then another equals rewriting once with the second |
| `ReadmeVersions.UpdateReadmeIdempotent` | update-version.py:52-60 | updating an already-updated README with the same date returns the same text and the same count |
| `ReadmeVersions.UpdateReadmeIgnoresOldDate` | update-version.py:35 | the result does not depend on `old_date`, and the count does not depend on `new_date` |
| `UpdateVersion.Run` | update-version.py:63-95 | the exit code is 0 or 1; README.md is written exactly when the exit code is 0, and with text of its old length |
| `UpdateVersion.RunMissingFile` | update-version.py:69-75 | a missing Dockerfile or README ends the run with 1 and README.md untouched |
| `UpdateVersion.RunWithoutBaseImage` | update-version.py:79-95 | with no dated base image in the Dockerfile the run ends with 1 and README.md untouched, because extraction comes before the rewrite |
| `UpdateVersion.RunSucceedsIff` | update-version.py:63-95 | the run exits 0 if and only if both files exist and the Dockerfile contains a match of the base-image pattern |
| `UpdateVersion.RunRewritesWithFirstDate` | update-version.py:79-91 | on success README.md is written with every reference rewritten to the leftmost base-image date and the exit code is 0, even when nothing was replaced |
| `UpdateVersion.RunIdempotent` | update-version.py:63-95 | running again on the files a successful run left behind writes the same README text and exits 0 again |
| `UpdateVersion.ExampleExtract` | update-version.py:26-32 | `FROM ubuntu:jammy-20240115` yields the date `20240115` |
| `UpdateVersion.ExampleMatches` | update-version.py:49-52 | in `v3.7.4-20230101 and v3.7.4-20230101` the matches are at positions 0 and 20 |
| `UpdateVersion.ExampleUpdateMatches` | update-version.py:49-60 | in that README both matches become `v3.7.4-20240115` and two replacements are counted |
| `UpdateVersion.ExampleUpdateBetween` | update-version.py:55 | the text ` and ` between the two matches is left unchanged |
| `UpdateVersion.ExampleUpdate` | update-version.py:49-60 | that README becomes `v3.7.4-20240115 and v3.7.4-20240115` with two replacements counted |
| `UpdateVersion.ExampleRun` | update-version.py:63-91 | the whole run on that pair of files exits 0 and writes the rewritten README |

## Left out

- File access (`Path.read_text`, `write_text`, `exists`) is replaced by the optional file contents given to `Run` and the text it returns.
  - The contents are taken as already decoded text. A decoding error while reading is a `ValueError` that `main` would catch, returning 1; the model does not cover it.
  - Errors while writing README.md are not modelled either.
- `UpdateVersion.Run`: the texts it takes and returns are after newline translation. `read_text` turns `\r\n` and a lone `\r` into `\n`, and `write_text` writes `\n` as the platform's line separator. So on disk a successful run can change README.md's line endings and byte length, even with zero replacements. "Same length" and "every other character unchanged", here and in `ReadmeVersions.UpdateReadmeRewritesMatches`, hold of the translated text only.
- Printing to stdout and stderr, and `sys.exit`, only report. Their output is not modelled.
- Python's `re` engine in general is not modelled. Only the two fixed patterns are, by hand-written matchers.
  - `\d` is restricted to `0`-`9`, and `\s` to the `re.ASCII` set: space, tab, `\n`, `\v`, `\f` and `\r`. Without that flag, Python's `\s` also accepts the separators `\x1c`-`\x1f` and other Unicode whitespace, and its `\d` accepts other Unicode digits.
- `ReadmeVersions.UpdateReadme`: requires `new_date` to be eight ASCII digits, so the escapes `re.sub` would process in a replacement string such as `\g<1>` followed by `new_date` are not modelled. In `main` the date always comes from extraction, which gives eight digits.
- `ReadmeVersions.Substitute`: writes the constant `v3.7.4-` for `\g<1>`. Group 1 of the pattern is that literal, so the text is the same.
- The upstream version probe (`check_version.py`) and the git publisher (`git_push.py`) are not part of this model.
