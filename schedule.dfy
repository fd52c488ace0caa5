/** The daily batch scheduler of `get_todays_posts`: a cursor (the date of
    the last advance and the index of the last post of that day's window)
    picks which slice of the post list is due today. The cursor's file is
    replaced by passing its value in and out, and `date.today()` by a
    parameter. */
module Schedule {
  import opened Wrappers

  /** A calendar date in the text form `str(date.today())` gives it. */
  type Date = seq<char>

  /** The value of the tracking file: `{"last_date": ..., "last_index": ...}`. */
  datatype Cursor = Cursor(lastDate: Option<Date>, lastIndex: int)

  /** What `load_tracking` returns when there is no tracking file yet. */
  const DefaultCursor := Cursor(None, -1)

  /** The configured `POSTS_PER_DAY`. */
  const PostsPerDay := 3

  // ---------------------------------------------------------------------------
  // Python slicing
  // ---------------------------------------------------------------------------

  /** A slice bound as Python normalises it for a sequence of length `len`:
      a negative bound counts from the end, then the bound is clamped. */
  function SliceBound(i: int, len: nat): (r: nat)
    ensures r <= len
  {
    if i < 0 then (if len + i < 0 then 0 else len + i)
    else if i > len then len
    else i
  }

  /** `s[lo:hi]` in Python. */
  function PySlice<T>(s: seq<T>, lo: int, hi: int): (r: seq<T>)
    ensures SliceBound(lo, |s|) + |r| <= |s|
    ensures forall k :: 0 <= k < |r| ==> r[k] == s[SliceBound(lo, |s|) + k]
  {
    var a, b := SliceBound(lo, |s|), SliceBound(hi, |s|);
    if a < b then s[a..b] else []
  }

  function Min(a: int, b: int): int { if a < b then a else b }

  /** A negative slice bound counts from the end of the sequence, and one
      further back than its start means the start. */
  lemma SliceFromEnd<T>(s: seq<T>, lo: int, hi: int)
    ensures -|s| <= lo < 0 ==> PySlice(s, lo, hi) == PySlice(s, |s| + lo, hi)
    ensures -|s| <= hi < 0 ==> PySlice(s, lo, hi) == PySlice(s, lo, |s| + hi)
    ensures lo < -|s| ==> PySlice(s, lo, hi) == PySlice(s, 0, hi)
    ensures hi < -|s| ==> PySlice(s, lo, hi) == []
  {
  }

  /** With non-negative bounds a Python slice is the run of elements from
      `lo` up to `hi`, cut at the end of the sequence; it is never longer than
      `hi - lo`. */
  lemma SliceNonNegative<T>(s: seq<T>, lo: int, hi: int)
    requires 0 <= lo <= hi
    ensures PySlice(s, lo, hi) == s[Min(lo, |s|)..Min(hi, |s|)]
    ensures |PySlice(s, lo, hi)| <= hi - lo
    ensures forall k :: 0 <= k < |PySlice(s, lo, hi)| ==> PySlice(s, lo, hi)[k] == s[lo + k]
  {
  }

  // ---------------------------------------------------------------------------
  // One call of get_todays_posts
  // ---------------------------------------------------------------------------

  /** What one call returns and leaves behind: the batch, the cursor after
      the call, and whether `save_tracking` was called. */
  datatype Selection<T> = Selection(batch: seq<T>, cursor: Cursor, saved: bool)

  predicate IsNewDay(c: Cursor, today: Date) {
    c.lastDate != Some(today)
  }

  /** `get_todays_posts(posts)` with the tracking value `c`, the date
      `today` and `POSTS_PER_DAY = n`. */
  function TodaysPosts<T>(posts: seq<T>, c: Cursor, today: Date, n: int): (r: Selection<T>)
    ensures r.saved <==> r.cursor != c
    ensures r.cursor == c || r.cursor == Cursor(Some(today), c.lastIndex + n)
    ensures !IsNewDay(c, today) ==> r.cursor == c
    ensures r.saved ==> r.batch != []
  {
    if c.lastDate == Some(today) then
      Selection(PySlice(posts, c.lastIndex - n + 1, c.lastIndex + 1), c, false)
    else
      var start := c.lastIndex + 1;
      var end := start + n;
      var batch := PySlice(posts, start, end);
      if batch != [] then Selection(batch, Cursor(Some(today), end - 1), true)
      else Selection(batch, c, false)
  }

  /** The cursor as the scheduler holds it between the load and the save. */
  class Tracker {
    var lastDate: Option<Date>
    var lastIndex: int

    function State(): Cursor
      reads this
    {
      Cursor(lastDate, lastIndex)
    }

    /** `load_tracking()`: the stored cursor, or the default one when
        nothing has been stored yet. */
    constructor Load(stored: Option<Cursor>)
      ensures State() == stored.GetOr(DefaultCursor)
    {
      match stored
      case Some(c) =>
        lastDate, lastIndex := c.lastDate, c.lastIndex;
      case None =>
        lastDate, lastIndex := None, -1;
    }

    /** `get_todays_posts`: the posts due today, with the cursor advanced
        (and saved) only on a new day that selects something. */
    method GetTodaysPosts<T>(posts: seq<T>, today: Date, postsPerDay: int) returns (todays: seq<T>, saved: bool)
      modifies this
      ensures todays == TodaysPosts(posts, old(State()), today, postsPerDay).batch
      ensures State() == TodaysPosts(posts, old(State()), today, postsPerDay).cursor
      ensures saved == TodaysPosts(posts, old(State()), today, postsPerDay).saved
      ensures Reachable(old(State()), postsPerDay) ==> Reachable(State(), postsPerDay)
    {
      ghost var c := State();
      StepReachable(posts, c, today, postsPerDay);
      if lastDate == Some(today) {
        var startIndex := lastIndex - postsPerDay + 1;
        return PySlice(posts, startIndex, lastIndex + 1), false;
      }
      var startIndex := lastIndex + 1;
      var endIndex := startIndex + postsPerDay;
      todays := PySlice(posts, startIndex, endIndex);
      saved := false;
      if todays != [] {
        lastDate := Some(today);
        lastIndex := endIndex - 1;
        saved := true;
      }
    }
  }

  // ---------------------------------------------------------------------------
  // The windows one call selects
  // ---------------------------------------------------------------------------

  /** `x` is `0`, `n`, `2n`, ... */
  predicate MultipleOf(x: int, n: int)
    requires n >= 1
    decreases x
  {
    x == 0 || (x >= n && MultipleOf(x - n, n))
  }

  /** The cursors the scheduler can reach from the default one with a fixed
      `POSTS_PER_DAY = n`: the default itself, or a date together with a
      `last_index + 1` that is a positive multiple of `n`. */
  predicate Reachable(c: Cursor, n: int) {
    n >= 1 &&
    (c == DefaultCursor
     || (c.lastDate.Some? && c.lastIndex + 1 >= n && MultipleOf(c.lastIndex + 1, n)))
  }

  /** One call keeps the cursor reachable, whatever the feed and the date. */
  lemma StepReachable<T>(posts: seq<T>, c: Cursor, today: Date, n: int)
    ensures Reachable(c, n) ==> Reachable(TodaysPosts(posts, c, today, n).cursor, n)
  {
    if Reachable(c, n) && TodaysPosts(posts, c, today, n).cursor != c {
      assert MultipleOf(c.lastIndex + 1, n);
      assert (c.lastIndex + n + 1) - n == c.lastIndex + 1;
    }
  }

  /** On a new day the batch is `posts[last_index+1 : last_index+1+n]`: the
      next at most `n` posts after the cursor, in order. It is saved, and the
      cursor moves on by exactly `n`, exactly when a post is left there and
      `n` is positive. Any cursor at or past the default one will do. */
  lemma NewDayWindow<T>(posts: seq<T>, c: Cursor, today: Date, n: int)
    requires n >= 0 && c.lastIndex >= -1 && IsNewDay(c, today)
    ensures var r := TodaysPosts(posts, c, today, n);
            var lo := c.lastIndex + 1;
            && r.batch == posts[Min(lo, |posts|)..Min(lo + n, |posts|)]
            && |r.batch| <= n
            && (forall k :: 0 <= k < |r.batch| ==> r.batch[k] == posts[lo + k])
            && (r.saved <==> lo < |posts| && n > 0)
            && r.cursor == (if lo < |posts| && n > 0 then Cursor(Some(today), c.lastIndex + n) else c)
  {
    SliceNonNegative(posts, c.lastIndex + 1, c.lastIndex + 1 + n);
  }

  /** The first run ever selects the first `n` posts. */
  lemma FirstRun<T>(posts: seq<T>, today: Date, n: int)
    requires n >= 1
    ensures TodaysPosts(posts, DefaultCursor, today, n).batch == posts[..Min(n, |posts|)]
  {
    NewDayWindow(posts, DefaultCursor, today, n);
  }

  /** On the day of the last advance the call replays
      `posts[last_index-n+1 : last_index+1]`, whose start is never negative
      for a reachable cursor, and it leaves the cursor alone. */
  lemma SameDayReplay<T>(posts: seq<T>, c: Cursor, today: Date, n: int)
    requires Reachable(c, n) && !IsNewDay(c, today)
    ensures var r := TodaysPosts(posts, c, today, n);
            var lo := c.lastIndex - n + 1;
            && 0 <= lo
            && r.batch == posts[Min(lo, |posts|)..Min(lo + n, |posts|)]
            && r.cursor == c && !r.saved
  {
    SliceNonNegative(posts, c.lastIndex - n + 1, c.lastIndex + 1);
  }

  /** Replaying on the day of an advance gives back the batch that advance
      selected, as long as the feed is unchanged. */
  lemma ReplayRepeatsAdvance<T>(posts: seq<T>, c: Cursor, today: Date, n: int)
    requires TodaysPosts(posts, c, today, n).saved
    ensures var c' := TodaysPosts(posts, c, today, n).cursor;
            TodaysPosts(posts, c', today, n) == Selection(TodaysPosts(posts, c, today, n).batch, c', false)
  {
  }

  /** Once the window lies past the end of the feed, a new day selects
      nothing and leaves the cursor alone. */
  lemma Exhausted<T>(posts: seq<T>, c: Cursor, today: Date, n: int)
    requires n >= 0 && c.lastIndex >= -1 && IsNewDay(c, today) && c.lastIndex + 1 >= |posts|
    ensures TodaysPosts(posts, c, today, n) == Selection([], c, false)
  {
    NewDayWindow(posts, c, today, n);
  }

  // ---------------------------------------------------------------------------
  // Successive runs
  // ---------------------------------------------------------------------------

  /** One invocation of the program: the feed it fetched and the date. */
  datatype Run<T> = Run(posts: seq<T>, today: Date)

  /** The cursor after the runs `runs`, starting from `c`. */
  function CursorAfter<T>(c: Cursor, runs: seq<Run<T>>, n: int): Cursor {
    if runs == [] then c
    else
      var last := runs[|runs| - 1];
      TodaysPosts(last.posts, CursorAfter(c, runs[..|runs| - 1], n), last.today, n).cursor
  }

  /** Every cursor along a run of invocations is reachable. */
  lemma {:induction false} RunReachable<T>(c: Cursor, runs: seq<Run<T>>, n: int)
    requires Reachable(c, n)
    ensures Reachable(CursorAfter(c, runs, n), n)
  {
    if runs != [] {
      var last := runs[|runs| - 1];
      RunReachable(c, runs[..|runs| - 1], n);
      StepReachable(last.posts, CursorAfter(c, runs[..|runs| - 1], n), last.today, n);
    }
  }

  /** From the first load, with nothing stored, every later cursor is
      reachable, so the same-day replay never starts at a negative index. */
  lemma FromFirstLoad<T>(runs: seq<Run<T>>, n: int)
    requires n >= 1
    ensures Reachable(CursorAfter(DefaultCursor, runs, n), n)
    ensures var c := CursorAfter(DefaultCursor, runs, n);
            c.lastDate.Some? ==> c.lastIndex - n + 1 >= 0
  {
    RunReachable(DefaultCursor, runs, n);
  }

  /** The cursor after the first `i` runs. */
  function CursorAt<T>(c: Cursor, runs: seq<Run<T>>, n: int, i: nat): Cursor
    requires i <= |runs|
  {
    CursorAfter(c, runs[..i], n)
  }

  lemma CursorAtNext<T>(c: Cursor, runs: seq<Run<T>>, n: int, i: nat)
    requires i < |runs|
    ensures CursorAt(c, runs, n, i + 1)
            == TodaysPosts(runs[i].posts, CursorAt(c, runs, n, i), runs[i].today, n).cursor
  {
    assert runs[..i + 1][..i] == runs[..i];
  }

  /** The cursor's index never moves back. */
  lemma {:induction false} CursorMonotone<T>(c: Cursor, runs: seq<Run<T>>, n: int, i: nat, j: nat)
    requires n >= 0 && i <= j <= |runs|
    ensures CursorAt(c, runs, n, i).lastIndex <= CursorAt(c, runs, n, j).lastIndex
    decreases j - i
  {
    if i < j {
      CursorAtNext(c, runs, n, j - 1);
      CursorMonotone(c, runs, n, i, j - 1);
    }
  }

  /** Position `p` of the feed is selected by run `i` as a new-day pick. */
  predicate PickedOn<T>(c: Cursor, runs: seq<Run<T>>, n: int, i: nat, p: int)
    requires i < |runs|
  {
    var ci := CursorAt(c, runs, n, i);
    IsNewDay(ci, runs[i].today) && ci.lastIndex + 1 <= p < ci.lastIndex + 1 + n && p < |runs[i].posts|
  }

  /** The batch of a new-day run is exactly the posts at the positions that
      run picks, in order. */
  lemma PickedIsBatch<T>(c: Cursor, runs: seq<Run<T>>, n: int, i: nat)
    requires Reachable(c, n) && i < |runs|
    requires IsNewDay(CursorAt(c, runs, n, i), runs[i].today)
    ensures var ci := CursorAt(c, runs, n, i);
            var batch := TodaysPosts(runs[i].posts, ci, runs[i].today, n).batch;
            && 0 <= ci.lastIndex + 1
            && (batch != [] ==> ci.lastIndex + 1 + |batch| <= |runs[i].posts|
                                && batch == runs[i].posts[ci.lastIndex + 1..ci.lastIndex + 1 + |batch|])
    ensures var ci := CursorAt(c, runs, n, i);
            var batch := TodaysPosts(runs[i].posts, ci, runs[i].today, n).batch;
            forall p :: PickedOn(c, runs, n, i, p) <==> ci.lastIndex + 1 <= p < ci.lastIndex + 1 + |batch|
  {
    var ci := CursorAt(c, runs, n, i);
    RunReachable(c, runs[..i], n);
    NewDayWindow(runs[i].posts, ci, runs[i].today, n);
  }

  /** No position of the feed is picked on two different new-day runs:
      successive daily batches are disjoint (and follow one another). */
  lemma NoPositionTwice<T>(c: Cursor, runs: seq<Run<T>>, n: int, i: nat, j: nat, p: int)
    requires Reachable(c, n) && i < j < |runs|
    ensures !(PickedOn(c, runs, n, i, p) && PickedOn(c, runs, n, j, p))
  {
    if PickedOn(c, runs, n, i, p) {
      var ci := CursorAt(c, runs, n, i);
      RunReachable(c, runs[..i], n);
      NewDayWindow(runs[i].posts, ci, runs[i].today, n);
      CursorAtNext(c, runs, n, i);
      CursorMonotone(c, runs, n, i + 1, j);
    }
  }

  // ---------------------------------------------------------------------------
  // Worked examples
  // ---------------------------------------------------------------------------

  /** Seven posts, three a day, four distinct days: the batches are posts
      0-2, 3-5 and 6, then nothing. The third advance puts the cursor at 8,
      the end of its window, although the last post found is 6. */
  lemma SevenPostsThreeADay<T>(posts: seq<T>, d1: Date, d2: Date, d3: Date, d4: Date)
    requires |posts| == 7
    requires d1 != d2 && d2 != d3 && d3 != d4
    ensures var s1 := TodaysPosts(posts, DefaultCursor, d1, PostsPerDay);
            var s2 := TodaysPosts(posts, s1.cursor, d2, PostsPerDay);
            var s3 := TodaysPosts(posts, s2.cursor, d3, PostsPerDay);
            var s4 := TodaysPosts(posts, s3.cursor, d4, PostsPerDay);
            && s1 == Selection(posts[0..3], Cursor(Some(d1), 2), true)
            && s2 == Selection(posts[3..6], Cursor(Some(d2), 5), true)
            && s3 == Selection(posts[6..7], Cursor(Some(d3), 8), true)
            && s4 == Selection([], Cursor(Some(d3), 8), false)
  {
  }

  /** Because the cursor moves to the end of its window, posts appended to
      the feed later at positions inside a window that ran past the end are
      never picked: with the cursor at 8 and a feed grown to ten posts, the
      next day's batch is post 9 alone. */
  lemma GrownFeedSkipsGap<T>(posts: seq<T>, d3: Date, d4: Date)
    requires |posts| == 10 && d3 != d4
    ensures TodaysPosts(posts, Cursor(Some(d3), 8), d4, PostsPerDay)
            == Selection(posts[9..10], Cursor(Some(d4), 11), true)
  {
  }
}
