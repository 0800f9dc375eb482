# gt-tracker-rs core, modelled in Dafny

gt-tracker-rs looks up seat availability for a list of course sections (CRNs)
on the Georgia Tech registration site and shows it as a terminal table. This
project models the two parts of it that hold real logic:

- **Term-code resolution** (`Season` in `src/lib.rs`). Each season has a
  fixed id: Fall 8, Spring 2, Summer 5. The term's year is the current year,
  except that Spring moves to the next year once April is over. The term code
  is the decimal year, a literal `0`, then the decimal id, e.g. `202508`. The
  clock reading `chrono::Utc::now()` becomes two parameters: a year and a
  month in 1..12. Rust's `{}` formatting of an `i32` is modelled by
  `Decimal.ShowInt`. A parser (`Decimal.ParseInt`, `Term.DecodeTermCode`)
  gives every rendering an inverse to be checked against.
- **The dashboard** (`App` in `src/main.rs`). Its state is the selected row,
  the scrollbar (content length and position), the column widths and the exit
  flag, over a course list that never changes. `next` and `previous` wrap
  around. Keys `q`, `j` and `k` quit, move down and move up; every other key
  is ignored. A row is red when its class has no remaining seats and green
  otherwise. The name column is as wide as the widest name, and the other
  columns have the fixed widths 6, 3, 3 and 3.

A course is a plain record (`Courses.Course`): CRN, season, name, and the
class and waitlist seat counts as the page reports them.

Modules: `Wrappers` (Option), `Decimal` (integer rendering and parsing),
`Term` (`src/lib.rs`), `Courses` (the course record), `Dashboard`
(`src/main.rs`).

Behaviour of the code that the model keeps, even where the intent may have been different:

- Spring in May 2025 gives the code `202602`, not `202502`. The code adds one
  to the year for Spring after April (`src/lib.rs:45-47`).
- Navigation on an empty course list is not a no-op. `len() - 1` on a `usize`
  underflows, so the model turns this into preconditions:
  - `New` needs a non-empty list (`src/main.rs:29`);
  - `Next` needs one whenever a row is selected (`src/main.rs:40`);
  - `Previous` needs one only when wrapping from row 0 (`src/main.rs:59`).
- The code does not check that a CRN has six characters.
- The CRN column width is the constant 6. It is not measured.
- The help footer says `(Esc) quit`, but the key handler reacts only to `q`
  (`src/main.rs:90-97`, `src/main.rs:128`). `Dashboard.EscIgnored` records this.

## Model

| member | source | states |
|---|---|---|
| `Term.Id` | src/lib.rs:30-36 | every season's term id is a single digit in 1..9 |
| `Term.IdInjective` | src/lib.rs:30-36 | two seasons have the same id exactly when they are the same season |
| `Term.SeasonOfId` | src/lib.rs:30-36 | the inverse of the id table: it yields a season exactly when that season's id is the given number |
| `Term.Year` | src/lib.rs:38-50 | the term year is the current year or the next one, and it is the next one exactly when the season is Spring and the month is after April |
| `Term.SpringEarlyKeepsYear` | src/lib.rs:77-89 | Spring in months 1..4 keeps the current year |
| `Term.SpringLateNextYear` | src/lib.rs:45-47 | Spring in months 5..12 uses the current year + 1 |
| `Term.FallSummerIgnoreMonth` | src/lib.rs:45-56 | for Fall and Summer the year is the current year and the term code is the same for every month |
| `Term.SpringCodeByHalfYear` | src/lib.rs:45-56 | two Spring codes of one year are equal exactly when both months are in 1..4 or both are in 5..12 |
| `Term.TermCode` | src/lib.rs:52-57 | the code is the decimal term year, then '0', then the id digit, and it is two characters longer than the year's decimal form |
| `Term.DecodeTermCodeRoundTrip` | src/lib.rs:52-57 | decoding a term code gives back the term year and the season |
| `Term.TermCodeInjective` | src/lib.rs:52-57 | two clock readings give equal codes exactly when they give the same season and term year |
| `Term.TermCodeSuffix` | src/lib.rs:56 | the last two characters are "08", "02" or "05" for Fall, Spring and Summer |
| `Term.TermCodeLengthSix` | src/lib.rs:56 | a four-digit term year gives a six-character code |
| `Term.TermCodeExamples` | src/lib.rs:91-99 | concrete codes: Spring in May 2025 is "202602", Spring in April 2025 is "202502", Fall is "202508", Summer is "202505" |
| `Decimal.ShowInt` | src/lib.rs:56 | `{}` on an integer: a leading '-' exactly for negative numbers, then a numeral without leading zeros |
| `Decimal.ParseShowInt` | src/lib.rs:56 | parsing the rendering of an integer gives the integer back, so rendering loses nothing |
| `Dashboard.New` | src/main.rs:26-34 | a new dashboard selects row 0 with the scrollbar at 0, is not exiting, keeps the courses, uses the computed column widths, and satisfies the range invariant |
| `Dashboard.Next` | src/main.rs:36-51 | changes only the selection and scroll position: no selection or an out-of-range one becomes 0; in range it becomes (i + 1) mod len; scroll = selection × 4; the range invariant is kept |
| `Dashboard.Previous` | src/main.rs:53-69 | changes only the selection and scroll position: no selection becomes 0; an out-of-range selection i becomes i − 1; in range it becomes (i − 1 + len) mod len; scroll = selection × 4; the range invariant is kept |
| `Dashboard.Exit` | src/main.rs:99-101 | sets the exit flag and leaves the selection, scrollbar, courses and widths unchanged |
| `Dashboard.HandleKey` | src/main.rs:90-97 | 'q' is exit, 'j' is next, 'k' is previous, and any other key changes nothing; the exit flag is raised exactly by 'q'; the courses never change; the range invariant is kept |
| `Dashboard.EscIgnored` | src/main.rs:90-97 | Esc leaves the dashboard unchanged even though the footer lists it as the quit key; 'q' exits |
| `Dashboard.Session` | src/main.rs:71-78 | the loop keeps the range invariant and the course list, and it ends exiting exactly when a 'q' was among the keys |
| `Dashboard.SessionEndsAtQuit` | src/main.rs:71-78 | the keys after the first 'q' are never read |
| `Dashboard.SessionWithoutQuitRuns` | src/main.rs:71-97 | from a new dashboard, keys without a 'q' never raise the exit flag and never change the courses |
| `Dashboard.DetermineColor` | src/main.rs:150-155 | a row is red exactly when its class has 0 remaining seats, otherwise green; only the course is read |
| `Dashboard.MaxNameWidth` | src/main.rs:104-110 | the result bounds every course name's width and is the width of one of them; it is 0 for no courses |
| `Dashboard.ColumnWidths` | src/main.rs:104-115 | the widths are 6, 3, 3, 3 after the name column; the name column is the widest name truncated to `u16`, which is exactly the widest name when every name fits in 16 bits |
| `Dashboard.ScrollWithinContent` | src/main.rs:26-51 | in every valid state the scroll position is at most the scrollbar's content length (len − 1) × 4 |
| `Dashboard.WrapAround` | src/main.rs:36-69 | `next` goes from the last row to row 0, and `previous` goes from row 0 to the last row |
| `Dashboard.PreviousUndoesNext` | src/main.rs:36-69 | `previous` after `next` restores the whole state |
| `Dashboard.NextUndoesPrevious` | src/main.rs:36-69 | `next` after `previous` restores the whole state |
| `Dashboard.NextTimesSelection` | src/main.rs:36-51 | k presses of 'j' select (i + k) mod len |
| `Dashboard.PreviousTimesSelection` | src/main.rs:53-69 | k presses of 'k' select (i − k) mod len |
| `Dashboard.NextFullCircle` | src/main.rs:36-51 | len presses of 'j' give back the state you started from |

## Left out

- `src/oscar_scraper.rs` is not modelled. It does an HTTP GET through `ureq` and parses HTML with the `scraper` crate. Both are network I/O and foreign libraries, and it has no logic of its own to verify.
- The `Course::new` constructor in `src/course.rs` is not modelled. It only forwards a network call, so a course is a plain record here.
- The record's seat counts come from accessors that `src/main.rs` calls but that are not part of this model.
- `run` and `Args` in `src/lib.rs` are not modelled: command-line parsing, logger setup, printing, and a panic on error.
- `chrono::Utc::now()` is not modelled. The year and month it would give are parameters instead.
- `Term.Year`: `i32` overflow of `year + 1` is not modelled. Years from chrono are far inside the `i32` range.
- The terminal drawing in `src/main.rs` is not modelled: `ui`, `render_table`, `render_scrollbar`, `render_footer`, `main` and the `tui` module. The blocking event read in `handle_events` and its filter for key presses are left out too.
- `Dashboard.Session` models `App::run` with the drawing removed. It takes the key presses as a list, and it is stated only for dashboards that satisfy the range invariant. Every dashboard built by `New` does.
- `Dashboard.DisplayWidth`: `UnicodeWidthStr::width` is a Unicode width table, which is not modelled. A name's width is its number of characters.
- Ratatui's `TableState` and `ScrollbarState` are modelled only by the fields the code sets: the selected row, the scrollbar's content length and its position. Table offsets and viewport length are not modelled.
- `Dashboard.Next`: `usize` overflow of `i * ITEM_HEIGHT` and `i + 1` is not modelled. The selection never exceeds the course count.
