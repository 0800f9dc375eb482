/**
 The dashboard of src/main.rs: the `App` state over a fixed list of courses,
 its wrap-around navigation, the key bindings, the row colour policy and the
 column widths. Terminal drawing is not modelled; only the state it reads is.
 */
module Dashboard {
  import opened Wrappers
  import opened Courses

  /** Each table row is four lines tall, and the scrollbar moves by that much per row. */
  const ItemHeight: nat := 4

  /** Rust's `u16`. */
  type U16 = x: int | 0 <= x < 0x1_0000

  datatype Color = Red | Green

  /** Column widths for the table layout: name, CRN, capacity, actual, remaining. */
  datatype Widths = Widths(name: U16, crn: U16, capacity: U16, actual: U16, remaining: U16)

  /** The scrollbar: the length of its content and its current position. */
  datatype Scroll = Scroll(contentLength: nat, position: nat)

  /** A key code as the terminal reports it; only characters are bound. */
  datatype KeyCode = Char(ch: char) | Esc | Other

  datatype App = App(
    selected: Option<nat>,
    courses: seq<Course>,
    widths: Widths,
    scroll: Scroll,
    exit: bool)

  /**
   The state every reachable dashboard is in: a non-empty course list, a
   selected row inside it, and a scrollbar whose position follows the row.
   */
  predicate Valid(app: App) {
    && |app.courses| >= 1
    && app.selected.Some?
    && app.selected.value < |app.courses|
    && app.scroll.position == app.selected.value * ItemHeight
    && app.scroll.contentLength == (|app.courses| - 1) * ItemHeight
  }

  /** The terminal width of a name; every character is taken to be one column wide. */
  function DisplayWidth(s: string): nat {
    |s|
  }

  /** The widest course name, or 0 for no courses. */
  function MaxNameWidth(courses: seq<Course>): (m: nat)
    ensures forall i :: 0 <= i < |courses| ==> DisplayWidth(courses[i].name) <= m
    ensures |courses| == 0 ==> m == 0
    ensures |courses| > 0 ==> exists i :: 0 <= i < |courses| && m == DisplayWidth(courses[i].name)
  {
    if |courses| == 0 then 0
    else
      var rest := MaxNameWidth(courses[1..]);
      var w := DisplayWidth(courses[0].name);
      if w >= rest then w else rest
  }

  /** Column widths: the widest name cast to `u16`, then the fixed widths 6, 3, 3, 3. */
  function ColumnWidths(courses: seq<Course>): (r: Widths)
    ensures r.crn == 6 && r.capacity == 3 && r.actual == 3 && r.remaining == 3
    ensures r.name == MaxNameWidth(courses) % 0x1_0000
    ensures (forall i :: 0 <= i < |courses| ==> DisplayWidth(courses[i].name) < 0x1_0000) ==>
      && (forall i :: 0 <= i < |courses| ==> DisplayWidth(courses[i].name) <= r.name)
      && (|courses| == 0 ==> r.name == 0)
      && (|courses| > 0 ==> exists i :: 0 <= i < |courses| && r.name == DisplayWidth(courses[i].name))
  {
    Widths(MaxNameWidth(courses) % 0x1_0000, 6, 3, 3, 3)
  }

  /** Full classes are drawn red, all others green. */
  function DetermineColor(course: Course): (c: Color)
    ensures c == Red <==> course.classEnrollment.remaining == 0
    ensures c == Green <==> course.classEnrollment.remaining != 0
  {
    if course.classEnrollment.remaining == 0 then Red else Green
  }

  /** A fresh dashboard; `len() - 1` underflows on an empty list, so the list must be non-empty. */
  function New(courses: seq<Course>): (r: App)
    requires |courses| >= 1
    ensures Valid(r)
    ensures r.courses == courses
    ensures r.selected == Some(0) && r.scroll.position == 0
    ensures !r.exit
    ensures r.widths == ColumnWidths(courses)
  {
    App(Some(0), courses, ColumnWidths(courses), Scroll((|courses| - 1) * ItemHeight, 0), false)
  }

  /** `next` evaluates `len() - 1` whenever a row is selected, and that underflows on an empty list. */
  predicate NextDefined(app: App) {
    app.selected.Some? ==> |app.courses| >= 1
  }

  /** `previous` evaluates `len() - 1` only when it wraps around from the first row. */
  predicate PreviousDefined(app: App) {
    app.selected == Some(0) ==> |app.courses| >= 1
  }

  /** Selects row `i` and moves the scrollbar to it; nothing else changes. */
  function Select(app: App, i: nat): (r: App)
    ensures r.selected == Some(i) && r.scroll.position == i * ItemHeight
    ensures r.courses == app.courses && r.widths == app.widths && r.exit == app.exit
    ensures r.scroll.contentLength == app.scroll.contentLength
  {
    app.(selected := Some(i), scroll := app.scroll.(position := i * ItemHeight))
  }

  /** Moves the selection one row down, wrapping from the last row to the first. */
  function Next(app: App): (r: App)
    requires NextDefined(app)
    ensures r.courses == app.courses && r.widths == app.widths && r.exit == app.exit
    ensures r.scroll.contentLength == app.scroll.contentLength
    ensures r.selected.Some? && r.scroll.position == r.selected.value * ItemHeight
    ensures app.selected.None? ==> r.selected == Some(0)
    ensures app.selected.Some? && app.selected.value >= |app.courses| ==> r.selected == Some(0)
    ensures Valid(app) ==> r.selected == Some((app.selected.value + 1) % |app.courses|)
    ensures Valid(app) ==> Valid(r)
  {
    var i :=
      match app.selected
      case Some(i) => if i >= |app.courses| - 1 then 0 else i + 1
      case None => 0;
    if Valid(app) then
      SuccInRange(app.selected.value, |app.courses|);
      Select(app, i)
    else
      Select(app, i)
  }

  /** Moves the selection one row up, wrapping from the first row to the last. */
  function Previous(app: App): (r: App)
    requires PreviousDefined(app)
    ensures r.courses == app.courses && r.widths == app.widths && r.exit == app.exit
    ensures r.scroll.contentLength == app.scroll.contentLength
    ensures r.selected.Some? && r.scroll.position == r.selected.value * ItemHeight
    ensures app.selected.None? ==> r.selected == Some(0)
    ensures app.selected.Some? && app.selected.value >= |app.courses| ==> r.selected == Some(app.selected.value - 1)
    ensures Valid(app) ==> r.selected == Some((app.selected.value - 1 + |app.courses|) % |app.courses|)
    ensures Valid(app) ==> Valid(r)
  {
    var i :=
      match app.selected
      case Some(i) => if i == 0 then |app.courses| - 1 else i - 1
      case None => 0;
    if Valid(app) then
      PredInRange(app.selected.value, |app.courses|);
      Select(app, i)
    else
      Select(app, i)
  }

  /** Raises the exit flag and leaves everything else as it was. */
  function Exit(app: App): (r: App)
    ensures r.exit
    ensures r.selected == app.selected && r.scroll == app.scroll
    ensures r.courses == app.courses && r.widths == app.widths
    ensures Valid(app) ==> Valid(r)
  {
    app.(exit := true)
  }

  /** The key would not make the dashboard evaluate `len() - 1` on an empty list. */
  predicate KeyDefined(app: App, key: KeyCode) {
    && (key == Char('j') ==> NextDefined(app))
    && (key == Char('k') ==> PreviousDefined(app))
  }

  /** One key press: 'q' quits, 'j' moves down, 'k' moves up, every other key is ignored. */
  function HandleKey(app: App, key: KeyCode): (r: App)
    requires KeyDefined(app, key)
    ensures r.courses == app.courses && r.widths == app.widths
    ensures r.exit <==> app.exit || key == Char('q')
    ensures key == Char('q') ==> r.selected == app.selected && r.scroll == app.scroll
    ensures key == Char('j') ==> r == Next(app)
    ensures key == Char('k') ==> r == Previous(app)
    ensures key != Char('q') && key != Char('j') && key != Char('k') ==> r == app
    ensures Valid(app) ==> Valid(r)
  {
    if key == Char('q') then Exit(app)
    else if key == Char('j') then Next(app)
    else if key == Char('k') then Previous(app)
    else app
  }

  /** The help footer names Esc as the quit key, but only 'q' quits: Esc changes nothing. */
  lemma EscIgnored(app: App)
    ensures HandleKey(app, Esc) == app
    ensures HandleKey(app, Char('q')).exit
  {
  }

  /**
   The event loop with drawing left out: key presses are handled one at a time
   until the exit flag is up, and the keys after that are never read.
   */
  function Session(app: App, keys: seq<KeyCode>): (r: App)
    requires Valid(app)
    ensures Valid(r)
    ensures r.courses == app.courses && r.widths == app.widths
    ensures r.exit <==> app.exit || Char('q') in keys
    decreases |keys|
  {
    if app.exit || |keys| == 0 then app
    else
      assert keys == [keys[0]] + keys[1..];
      Session(HandleKey(app, keys[0]), keys[1..])
  }

  /** The scrollbar never points past its content. */
  lemma ScrollWithinContent(app: App)
    requires Valid(app)
    ensures app.scroll.position <= app.scroll.contentLength
  {
    var i := app.selected.value;
    assert i <= |app.courses| - 1;
    assert i * ItemHeight <= (|app.courses| - 1) * ItemHeight;
  }

  /** From the last row `next` wraps to the first, and from the first `previous` wraps to the last. */
  lemma WrapAround(app: App)
    requires Valid(app)
    ensures app.selected.value == |app.courses| - 1 ==> Next(app).selected == Some(0)
    ensures app.selected.value == 0 ==> Previous(app).selected == Some(|app.courses| - 1)
  {
  }

  /** `previous` undoes `next`. */
  lemma PreviousUndoesNext(app: App)
    requires Valid(app)
    ensures Previous(Next(app)) == app
  {
  }

  /** `next` undoes `previous`. */
  lemma NextUndoesPrevious(app: App)
    requires Valid(app)
    ensures Next(Previous(app)) == app
  {
  }

  /** The dashboard after `k` presses of 'j'. */
  function NextTimes(app: App, k: nat): (r: App)
    requires Valid(app)
    ensures Valid(r)
    ensures r.courses == app.courses && r.widths == app.widths && r.exit == app.exit
  {
    if k == 0 then app else Next(NextTimes(app, k - 1))
  }

  /** The dashboard after `k` presses of 'k'. */
  function PreviousTimes(app: App, k: nat): (r: App)
    requires Valid(app)
    ensures Valid(r)
    ensures r.courses == app.courses && r.widths == app.widths && r.exit == app.exit
  {
    if k == 0 then app else Previous(PreviousTimes(app, k - 1))
  }

  lemma MulAtLeast(a: int, n: int)
    requires a >= 1 && n >= 1
    ensures a * n >= n
  {
    assert a * n == (a - 1) * n + n;
  }

  /** Euclidean remainder is determined by any decomposition with a remainder in range. */
  lemma ModUnique(x: int, n: int, q: int, r: int)
    requires n >= 1 && 0 <= r < n && x == q * n + r
    ensures x % n == r
  {
    var q', r' := x / n, x % n;
    assert x == q' * n + r';
    assert q * n - q' * n == r' - r;
    assert (q - q') * n == q * n - q' * n;
    if q > q' {
      MulAtLeast(q - q', n);
    } else if q < q' {
      assert (q' - q) * n == q' * n - q * n;
      MulAtLeast(q' - q, n);
    }
  }

  /** Wrapping successor within `0..n`. */
  lemma SuccInRange(i: int, n: int)
    requires 0 <= i < n
    ensures (i + 1) % n == if i + 1 == n then 0 else i + 1
  {
    if i + 1 == n {
      ModUnique(i + 1, n, 1, 0);
    } else {
      ModUnique(i + 1, n, 0, i + 1);
    }
  }

  /** Wrapping predecessor within `0..n`. */
  lemma PredInRange(i: int, n: int)
    requires 0 <= i < n
    ensures (i - 1 + n) % n == if i == 0 then n - 1 else i - 1
  {
    if i == 0 {
      ModUnique(n - 1, n, 0, n - 1);
    } else {
      ModUnique(i - 1 + n, n, 1, i - 1);
    }
  }

  lemma ModSucc(a: int, n: int)
    requires n >= 1
    ensures (a % n + 1) % n == (a + 1) % n
  {
    var q, r := a / n, a % n;
    assert a == q * n + r;
    if r + 1 < n {
      ModUnique(a + 1, n, q, r + 1);
      ModUnique(r + 1, n, 0, r + 1);
    } else {
      ModUnique(a + 1, n, q + 1, 0);
      ModUnique(r + 1, n, 1, 0);
    }
  }

  lemma ModPred(a: int, n: int)
    requires n >= 1
    ensures (a % n - 1 + n) % n == (a - 1) % n
  {
    var q, r := a / n, a % n;
    assert a == q * n + r;
    if r >= 1 {
      ModUnique(a - 1, n, q, r - 1);
      ModUnique(r - 1 + n, n, 1, r - 1);
    } else {
      ModUnique(a - 1, n, q - 1, n - 1);
      ModUnique(r - 1 + n, n, 0, n - 1);
    }
  }

  /** `k` presses of 'j' move the selection `k` rows down, modulo the number of courses. */
  lemma {:induction false} NextTimesSelection(app: App, k: nat)
    requires Valid(app)
    ensures NextTimes(app, k).selected == Some((app.selected.value + k) % |app.courses|)
  {
    if k > 0 {
      NextTimesSelection(app, k - 1);
      ModSucc(app.selected.value + k - 1, |app.courses|);
    }
  }

  /** `k` presses of 'k' move the selection `k` rows up, modulo the number of courses. */
  lemma {:induction false} PreviousTimesSelection(app: App, k: nat)
    requires Valid(app)
    ensures PreviousTimes(app, k).selected == Some((app.selected.value - k) % |app.courses|)
  {
    if k > 0 {
      PreviousTimesSelection(app, k - 1);
      ModPred(app.selected.value - (k - 1), |app.courses|);
    }
  }

  /** Pressing 'j' once per course brings the selection back where it was. */
  lemma NextFullCircle(app: App)
    requires Valid(app)
    ensures NextTimes(app, |app.courses|) == app
  {
    var n := |app.courses|;
    var i := app.selected.value;
    NextTimesSelection(app, n);
    ModUnique(i + n, n, 1, i);
  }

  /** Once 'q' has been read, no later key changes the outcome of the session. */
  lemma {:induction false} SessionEndsAtQuit(app: App, before: seq<KeyCode>, after: seq<KeyCode>)
    requires Valid(app)
    ensures Session(app, before + [Char('q')] + after) == Session(app, before + [Char('q')])
    decreases |before|
  {
    var keys, cut := before + [Char('q')] + after, before + [Char('q')];
    if app.exit {
    } else if |before| == 0 {
      assert keys[0] == Char('q') && cut[0] == Char('q');
      assert keys[1..] == after && cut[1..] == [];
    } else {
      var next := HandleKey(app, before[0]);
      assert keys[0] == before[0] && cut[0] == before[0];
      assert keys[1..] == before[1..] + [Char('q')] + after;
      assert cut[1..] == before[1..] + [Char('q')];
      SessionEndsAtQuit(next, before[1..], after);
    }
  }

  /** A session that never reads 'q' keeps the dashboard running. */
  lemma SessionWithoutQuitRuns(courses: seq<Course>, keys: seq<KeyCode>)
    requires |courses| >= 1
    requires Char('q') !in keys
    ensures !Session(New(courses), keys).exit
    ensures Session(New(courses), keys).courses == courses
  {
  }
}
