# Dashboard formatting logic of `panes/utils.py`

`panes/utils.py` is a set of helpers for a cluster-account dashboard. Most of
it reads the filesystem and the clock and prints to a terminal. Under that
plumbing is a small amount of integer and string logic, and this project models
that logic in Dafny and proves its properties:

- **Permission classifier** (`permissions.dfy`). `is_rx` decides whether a path
  is open to every user by reading the last character of `oct(st_mode)`.
  `public_or_private` builds the public or private text from that verdict.
- **Relative-time messages** (`relative_time.dfy`). `last_active` and
  `ondemand_last_used` are pure functions of the `timedelta` they compute:
  whole days, plus seconds below one day. The calendar rendering of the
  modification time is an opaque `strftime` parameter, applied to the format
  string the chosen branch names.
- **Package grid** (`package_grid.dfy`). `print_packages` is a method. It builds
  the colour list in a loop, then fills each row in a nested loop that stops
  early with `break`. It returns the rows it would print, or the
  `ZeroDivisionError` its divisions raise. Specification functions state the
  layout (`Layout`, `Grid`), and lemmas prove what that layout guarantees.
- **Name normaliser** (`names.dfy`). `remove_middle_initial` is a method that
  keeps the source's loop, which returns during its first pass.
- **Divider** (`divider.dfy`). This models the lines `divider` prints.
- **Host table** (`hosts.dfy`). `known_hosts` is declared as a constant map.
- **Text support** (`text.dfy`). Python's `str(int)`, `c * n`, `' '.join` and
  `str.split()` are modelled, the last over the whitespace set that
  `str.isspace` uses. Readers that undo them make the round trips provable.

Python's integer semantics are written out where they matter:

- `//` is floor division for divisors of either sign.
- `s[:k]` with a negative `k` counts from the end.
- `"c" * n` is empty when `n` is not positive.

The source quirks are reproduced, not corrected:

- Minutes are `seconds // 60`, not the remainder after whole hours, so they
  run up to 119.
- A negative day count (a modification time in the future) falls into the
  "N days ago" branch.
- `remove_middle_initial` looks only at the second token.
- A name of one or two tokens comes back untouched, whitespace included.

Details of the code that the model keeps:

- The `last_active` messages start with two spaces (`"  Active: ..."`).
- The last grid row ends after its last package, because the inner loop
  breaks there.
- A column count of zero raises `ZeroDivisionError`, and a negative column
  count prints no rows at all.

## Model

| member | source | states |
|---|---|---|
| Permissions.IsRx | panes/utils.py:13-15 | the verdict read from the last character of `oct(mode)` holds exactly when `mode % 8` is 5 or 7 |
| Permissions.RxIsOtherReadAndExecute | panes/utils.py:13-15 | `is_rx` holds exactly when the other-read bit (4) and the other-execute bit (1) are both set; the other-write bit does not matter |
| Permissions.RxIgnoresOwnerAndGroup | panes/utils.py:13-15 | replacing every bit above the last octal digit (owner, group, file type) never changes the verdict |
| Permissions.PublicOrPrivate | panes/utils.py:20-24 | the result is `"<path>: public (<N> items)"` when `is_rx` holds and `"<path>: private"` otherwise |
| Permissions.ReadPublicOrPrivate | panes/utils.py:20-24 | the text is unambiguous: reading it back for the same path gives public with exactly the entry count, or private, matching `is_rx` |
| Permissions.PublicExactlyWhenRx | panes/utils.py:20-24 | the text ends in `" items)"` if and only if `is_rx` holds |
| RelativeTime.SameDayTier | panes/utils.py:29-37 | hours (`s // 3600`, in 2..23) iff s >= 7200; minutes (`s // 60`, in 2..119) iff 120 <= s < 7200; raw seconds iff s < 120 |
| RelativeTime.ReadSameDayText | panes/utils.py:33-37 | the hours, minutes and seconds reports can be told apart and read back to the tier and number they were made from |
| RelativeTime.SameDayBoundaries | panes/utils.py:30-37 | 119 s gives seconds, 120 s gives 2 minutes, 7199 s gives 119 minutes, 7200 s gives 2 hours |
| RelativeTime.MinutesRunPastAnHour | panes/utils.py:30-35 | 6000 seconds (1 h 40 min) is reported as "100 minutes ago": minutes are not the remainder after hours |
| RelativeTime.LastActive | panes/utils.py:26-44 | the message for each bucket: days = 0 the same-day tier, 1 "yesterday", negative or 2..365 "N days ago" with the `%b %-d` date, above 365 with the `%-m/%-d/%Y` date |
| RelativeTime.LastActiveYearAgo | panes/utils.py:38-44 | one day gives "  Active: yesterday"; 400 days gives "  Active: 400 days ago (" followed by the month/day/year date |
| RelativeTime.YesterdayExactlyOneDay | panes/utils.py:29-44 | "yesterday" is reported if and only if the delta is exactly one day |
| RelativeTime.OnDemandLastUsed | panes/utils.py:79-102 | the line is gutter + "OnDemand " + app + ": " followed by the same-day tier, "(yesterday)", "N days ago" (negative or up to 31 days), the `%b %-d` date (32..365) or the `%b %-d %Y` date (above 365) |
| RelativeTime.SameDayAgreement | panes/utils.py:82-90 | within the same day both messages carry the identical report after their heads, and it reads back to the same tier |
| PackageGrid.FloorDiv | panes/utils.py:55 | Python's `a // b`: the greatest q with b*q <= a for b > 0, and the least q with b*q >= a for b < 0 |
| PackageGrid.CeilDiv | panes/utils.py:56 | the row count is the least r with columns*r >= n for positive columns; it is never positive for negative columns |
| PackageGrid.ColorCodes | panes/utils.py:47-54 | one prefix per package, in order: bold+green when in green (green wins), else bold+red when in red, else empty |
| PackageGrid.CellWidth | panes/utils.py:63-64 | the printed cell is its colour, the shown name, the reset sequence and the padding, and the shown name with its padding is exactly max_chars characters wide: a name of at least max_chars characters keeps its first max_chars-2 and gets "+ " and no padding; a shorter one is padded with spaces |
| PackageGrid.Layout | panes/utils.py:57-61 | row i, column j holds index j + columns*i, and every index shown is below the package count |
| PackageGrid.LayoutRowCount | panes/utils.py:56-57 | there are ceil(n / columns) rows, none exactly when there are no packages |
| PackageGrid.LayoutRowLengths | panes/utils.py:59-61 | every row but the last holds `columns` cells; the last holds n - columns*(rows-1) |
| PackageGrid.LayoutPosition | panes/utils.py:59-61 | every package index k sits at row k / columns, column k % columns, and nowhere else |
| PackageGrid.LayoutInOrder | panes/utils.py:57-61 | reading the rows in order visits 0, 1, ..., n-1: each package once, in list order |
| PackageGrid.FivePackagesInFortyColumns | panes/utils.py:55-61 | width 40, gutter of two spaces and cell width 14 give 2 columns, and five packages are laid out as [[0,1],[2,3],[4]] |
| PackageGrid.GridShowsEachPackageOnce | panes/utils.py:57-65 | the grid has ceil(n / columns) rows, each starting with the gutter, and the text after the gutters is every package's cell exactly once, in order |
| PackageGrid.FormatRow | panes/utils.py:58-64 | the inner loop with its `break` builds the gutter followed by the cells of exactly the indices of that layout row |
| PackageGrid.PrintPackages | panes/utils.py:46-66 | a zero cell width or a zero column count raises ZeroDivisionError; otherwise the rows are exactly the grid of the coloured cells (none for a negative column count) |
| Names.RemoveMiddleInitial | panes/utils.py:68-77 | at most two tokens: the input unchanged; more: the tokens left by the first loop pass, joined by single spaces |
| Names.AfterFirstPassTokens | panes/utils.py:72-75 | splitting the result gives exactly the kept tokens; the first and last tokens stay; at most one token goes, and one goes iff the second token is an initial |
| Names.SecondTokenInitial | panes/utils.py:68-75 | "John Q. Public" splits into three tokens and keeps "John", "Public" |
| Names.LaterInitialKept | panes/utils.py:72-75 | in "Ann Lee B." the initial in third place is kept, since only the second token is inspected |
| Text.Split | panes/utils.py:69 | `str.split()` yields only non-empty tokens free of whitespace |
| Text.SplitJoin | panes/utils.py:69-75 | splitting tokens joined by single spaces gives the tokens back |
| Divider.Divider | panes/utils.py:6-11 | a blank line, gutter + title, a rule of max(width, 0) '=' characters, and the message only when it is non-empty |

## Left out

- `os.stat`, `os.listdir` and `os.access` are not modelled. The mode word and the entry count are inputs, and `is_r` (lines 17-18) is a foreign access check with no logic of its own.
- Filesystem errors from a path that is missing or not a directory are not modelled.
- `datetime.today()`, `datetime.fromtimestamp` and `strftime` are not modelled. The elapsed `(days, seconds)` pair is an input, and the calendar rendering is an opaque function of the format string.
- `print` is not modelled. `divider`, `print_packages` and `ondemand_last_used` return the lines they would print.
- The terminal handle is reduced to four opaque escape strings. What the terminal does with them is not modelled.
- `divider` with `msg=None` is not modelled. The message is a string, and only the empty string is falsy.
- The `bashrc_default` and `bash_profile_default` templates (lines 119-149) are static text with no logic.
- PackageGrid.CeilDiv: computes `ceil(n / columns)` on exact rationals. It does not model floating-point rounding of the division, which only differs for counts beyond 2^53.
- PackageGrid.CellWidth: the fixed width is stated only for `max_chars >= 2`. For smaller cell widths the model reproduces the source's slicing and padding, but no width is claimed.
- PackageGrid.FormatRow: the inner loop of `print_packages` is its own method here. That is a factoring of the same loop, not a separate operation of the source.
- Python's `in` on the `red` and `green` lists is modelled as set membership. The order and duplicates of those lists have no effect on the result.
