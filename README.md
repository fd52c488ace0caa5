# lbot: the feed parser and the daily batch scheduler

lbot posts a few entries a day to LinkedIn, taken from a text feed. This
project models the two parts of `lbot.py` that hold its logic, and proves
properties of them.

- **The feed parser** is `fetch_posts_from_github` after its HTTP request. The
  feed text is cut at `===POST_START===`. Every chunk that holds
  `===POST_END===` contributes the stripped text before its first end marker.
  That text is optionally split at `===IMAGES===` into a text part and image
  locators, one per non-blank line. A post whose stripped text is empty is
  dropped. A body with two or more image markers makes the two-way unpacking
  raise, and that aborts the whole fetch.
- **The scheduler** is `get_todays_posts`. A cursor holds the date of the last
  advance and the index of the last post of that day's window. On a new day
  the cursor selects the next `POSTS_PER_DAY` posts and moves on. On the same
  day it replays the window it last selected.

Files:

- `wrappers.dfy`: `Option` and `Result`.
- `pystr.dfy`: the Python `str` built-ins the parser uses.
  - `sep in s` and `s.split(sep)`, at leftmost non-overlapping occurrences.
  - `s.strip()`, with the whole `str.isspace` character set.
  - `s.splitlines()`, with every boundary Python recognises, `\r\n` counting as one.
- `feed.dfy`: the parser.
  - `ParseChunk` specifies one turn of the loop, `ParseFeed` the whole feed.
  - The loop method `FetchPosts` is proved to compute `ParseFeed`.
  - Lemmas state what the parsed posts look like.
- `feed_render.dfy`: a renderer that lays posts out in the feed format. It is
  proved to be a right inverse of the parser on the marker-free posts the
  parser could itself emit: non-empty stripped text, and image entries that
  are non-empty stripped lines.
  This is the parser's partner: the source has no renderer.
- `schedule.dfy`: the scheduler.
  - The cursor, Python slicing (negative bounds included), and the function `TodaysPosts`.
  - The class `Tracker`, whose method updates the cursor in place as the source updates its `tracking` dictionary.
  - Lemmas about single calls and about runs of calls over several days.

Where the code and the design of the program disagree, the model follows
the code:

- No `===ID===` line is removed from a post's text.
- Posts carry no sequence numbers. They are identified by their 0-based position in the parsed list.
- A new-day advance moves the cursor to `end_index - 1`, the upper bound of the window, even when fewer posts were found. `Schedule.SevenPostsThreeADay` shows this: after the third of three-a-day runs over seven posts, the cursor stands at 8. `Schedule.GrownFeedSkipsGap` shows the consequence: posts later appended at positions 7 and 8 are never selected by a later new-day run. Only a same-day replay on the day of that advance can still return them.
- Text before the first `===POST_START===` is parsed as a chunk too, not ignored. A post closed by `===POST_END===` but never opened is still emitted (`FeedRender.UnopenedPost`).
- The parser is not total. A body with two image markers or more makes the whole fetch fail (`Failure(TooManyImageMarkers)`); it does not just drop the chunk.

## Model

| member | source | states |
|---|---|---|
| `PyStr.Strip` | lbot.py:30 | `strip()` returns a text that neither starts nor ends with whitespace. It is no longer than its input, and it is empty exactly when the input is all whitespace. |
| `PyStr.StripSlice` | lbot.py:30 | `strip()` only removes characters at the two ends: its result is the slice of the input after the leading whitespace. |
| `PyStr.StripTrimmed` | lbot.py:40 | Stripping a text that is already trimmed leaves it unchanged, so a post's text equals its own `strip()`. |
| `PyStr.StripPadded` | lbot.py:30 | Whitespace padding on both sides of a trimmed text is removed, and nothing more. |
| `PyStr.ContainsIff` | lbot.py:29-32 | `sep in s` holds exactly when the separator occurs at some position of the text. |
| `PyStr.Find` | lbot.py:29 | The leftmost occurrence of the separator, or none when there is no occurrence anywhere. |
| `PyStr.Split` | lbot.py:25 | `split` yields at least one piece. It yields two or more exactly when the separator occurs (`sep in s`). |
| `PyStr.SplitJoin` | lbot.py:25 | `split` loses nothing: the pieces joined with the separator give the input back, and no piece holds the separator. |
| `PyStr.SplitHead` | lbot.py:30 | The first piece of a split is everything before the leftmost occurrence. |
| `PyStr.SplitAfter` | lbot.py:25 | Text free of the separator and ending in a character the separator lacks (or empty), followed by the separator, splits into that text and then the pieces of the rest. |
| `PyStr.SplitNone` | lbot.py:25 | Text without the separator splits into itself alone. |
| `PyStr.SplitLines` | lbot.py:34 | No line returned by `splitlines()` holds a line boundary. The result is empty exactly when the input is empty. |
| `PyStr.SplitLinesCons` | lbot.py:34 | A boundary-free line followed by any one boundary character comes out as one line, followed by the lines of the rest. A `\r` counts alone only when no `\n` follows it. |
| `PyStr.SplitLinesCrLf` | lbot.py:34 | A boundary-free line followed by `\r\n` comes out as one line, followed by the lines of the rest: `\r\n` is one boundary, not two. |
| `PyStr.SplitLinesOne` | lbot.py:34 | A non-empty text without boundaries is one line. With `SplitLinesCons` and `SplitLinesCrLf` this fixes `splitlines()` on every text. |
| `Feed.KeepNonBlank` | lbot.py:34 | The list comprehension keeps at most as many lines as it reads. Every entry is a non-empty, stripped, boundary-free image locator. |
| `Feed.KeepNonBlankMembers` | lbot.py:34 | The entries are exactly the stripped non-blank lines: each non-blank line gives its `strip()` as an entry, and each entry is the `strip()` of a non-blank line. |
| `Feed.KeepNonBlankLine` | lbot.py:34 | A single line gives nothing when it is blank, and its `strip()` otherwise. |
| `Feed.KeepNonBlankAt` | lbot.py:34 | A line anywhere in the list contributes its `strip()`, unless it is blank, at its own place between the entries of the lines before and after it. |
| `Feed.ImageLines` | lbot.py:34 | Every image entry is a clean locator. The `strip()` of every non-blank line of the block is an entry, and every entry is the `strip()` of a non-blank line of the block. |
| `Feed.ImageLinesAfterLine` | lbot.py:34 | A block that starts with a line and a boundary (`\r\n` or one boundary character) has that line's `strip()` as its first image, unless the line is blank, then the images of the rest. |
| `Feed.ImageLinesLastLine` | lbot.py:34 | A block made of a single line has that line's `strip()` as its one image, unless the line is blank. |
| `Feed.StrippedLine` | lbot.py:34 | A line that is not blank strips to a valid image locator. |
| `Feed.KeepNonBlankAppend` | lbot.py:34 | Image lines are kept in order: the kept lines of two stretches are the kept lines of each, concatenated. |
| `Feed.Body` | lbot.py:30 | The body of a chunk is trimmed and no longer than the chunk. When the chunk holds an end marker, it is the `strip()` of everything before the first one. |
| `Feed.Emit` | lbot.py:39-40 | The final test never fails. It yields a post exactly when the text is not all whitespace, and that post's text is `text.strip()` and its images are unchanged. |
| `Feed.ParseChunk` | lbot.py:29-40 | A chunk without an end marker yields no post. Any post a chunk yields has non-empty stripped text and clean image entries. |
| `Feed.ParseChunks` | lbot.py:28-40 | The loop yields at most one post per chunk. |
| `Feed.ParseFeed` | lbot.py:25-42 | The fetch yields no more posts than chunks holding an end marker, and every post has non-empty stripped text and clean image entries. |
| `Feed.ParseChunkFacts` | lbot.py:29-40 | A chunk without an end marker yields no post. A chunk fails exactly when it holds an end marker and its body splits into more than two pieces at the image marker. Any post it yields has non-empty stripped text and clean image entries. |
| `Feed.ChunkTailIgnored` | lbot.py:30 | Whatever follows the first end marker of a chunk has no effect on the result. |
| `Feed.BodyWithoutImages` | lbot.py:35-37 | Without an image marker, the whole body is the text and there are no images; an empty body yields no post. |
| `Feed.OneImageMarker` | lbot.py:33 | A body with no image marker after its first one splits into two parts: the text before the first marker and the block after it. |
| `Feed.BodyWithImages` | lbot.py:32-40 | When the body has exactly one image marker, the post's text is the `strip()` of the part before the first marker, and its images are the trimmed non-blank lines after it. The post is dropped when that part is blank. |
| `Feed.BlankTextDropped` | lbot.py:39 | When the part of the body before its one image marker is blank, the chunk yields no post, whatever images it lists. |
| `Feed.SecondImageMarkerFails` | lbot.py:33 | A second image marker after the first makes the chunk fail with the unpacking error. |
| `Feed.ParseFailsIff` | lbot.py:33 | The fetch fails exactly when some chunk's two-way unpacking fails. |
| `Feed.PostCountBound` | lbot.py:28-40 | There are never more posts than chunks holding an end marker. |
| `Feed.PostsWellFormed` | lbot.py:39-40 | Every parsed post has non-empty text equal to its own `strip()`, and stripped non-empty image entries. |
| `Feed.ParseChunksAppend` | lbot.py:28-40 | Posts come out in chunk order. Parsing two runs of chunks in sequence gives the posts of the first run followed by those of the second, and the first error wins. |
| `Feed.ParseOneChunk` | lbot.py:28-40 | A single chunk parses to its own error, to no post, or to exactly the one post it yields. |
| `Feed.ParseChunksStep` | lbot.py:28-40 | One turn of the loop extends the result of the chunks before it by what the current chunk yields. |
| `Feed.FailureSticks` | lbot.py:33 | Once a chunk raises, the whole fetch fails with that error, whatever chunks follow. |
| `Feed.FetchPosts` | lbot.py:25-42 | The loop that appends one post per chunk computes `ParseFeed` of the content: the posts of the chunks in order, or the unpacking error. |
| `FeedRender.SplitLinesOfAllLines` | lbot.py:34 | The rendered image section splits into an empty line, then one line per image entry. |
| `FeedRender.ImageLinesOfLines` | lbot.py:34 | The image entries of a post, rendered one per line, parse back to the same entries. |
| `FeedRender.KeepLocators` | lbot.py:34 | Entries that are already clean image locators pass the comprehension unchanged. |
| `FeedRender.BodyTextTrimmed` | lbot.py:30 | For renderable posts (marker-free, non-empty stripped text, clean image entries), the body of a rendered post is non-empty and already stripped. |
| `FeedRender.ChunkBody` | lbot.py:29-30 | For renderable posts (marker-free, non-empty stripped text, clean image entries), a rendered chunk holds an end marker, and its body is the text written between the markers. |
| `FeedRender.ImagesSplit` | lbot.py:33 | For renderable posts (marker-free, non-empty stripped text, clean image entries), a rendered post with images splits at its one image marker into the text line and the image section. |
| `FeedRender.ChunkRoundTrip` | lbot.py:29-40 | Every post without markers in its text or images, with non-empty stripped text and clean image entries, renders to a chunk that parses back to that post. |
| `FeedRender.SplitRender` | lbot.py:25 | For renderable posts (marker-free, non-empty stripped text, clean image entries), a lead text without a start marker, and not ending in a character of one, followed by the rendered posts and cut at the start markers, gives that lead, then one chunk per post. |
| `FeedRender.ParseChunksOfPosts` | lbot.py:28-40 | Chunks that each yield one post parse to those posts, in order. |
| `FeedRender.ParseRender` | lbot.py:25-42 | For renderable posts (marker-free, non-empty stripped text, clean image entries), parsing a rendered feed gives back exactly the posts it was rendered from, in order. |
| `FeedRender.UnopenedPost` | lbot.py:25-40 | A post's text followed by a line break and an end marker, with no start marker anywhere, is parsed as one post: the text before the first start marker is a chunk like any other. |
| `Schedule.SliceBound` | lbot.py:66 | A slice bound, after counting a negative one from the end and clamping, never passes the length of the list. |
| `Schedule.PySlice` | lbot.py:66-70 | A Python slice lies inside the list from its clamped start on: its `k`-th element is the element at the start plus `k`. |
| `Schedule.SliceFromEnd` | lbot.py:66 | A negative slice bound no further back than the start counts from the end of the list. A start further back means the start, and an end further back gives an empty slice. |
| `Schedule.SliceNonNegative` | lbot.py:70 | With non-negative bounds, a Python slice is the run of posts from `lo` up to `hi`, cut at the end of the list. It holds at most `hi - lo` posts, and its `k`-th post is post `lo + k`. |
| `Schedule.TodaysPosts` | lbot.py:60-77 | The cursor is saved exactly when it changes. It either stays or becomes `(today, last_index + n)`. A same-day call never changes it. A save happens only with a non-empty batch. |
| `Schedule.Tracker.Load` | lbot.py:52 | The loaded cursor is the stored one, or `(None, -1)` when nothing is stored. |
| `Schedule.Tracker.GetTodaysPosts` | lbot.py:60-77 | The method returns the batch of `TodaysPosts`, leaves its cursor in the object, and reports whether it saved. It keeps the cursor reachable. |
| `Schedule.StepReachable` | lbot.py:68-74 | From a reachable cursor, one call leads to a reachable cursor. Such a cursor is the default, or a dated cursor whose `last_index + 1` is a positive multiple of `POSTS_PER_DAY`. |
| `Schedule.RunReachable` | lbot.py:60-77 | Every cursor along any run of calls, over any feeds and dates, is reachable. |
| `Schedule.FromFirstLoad` | lbot.py:52 | Starting from the default cursor `(None, -1)`, every later cursor is reachable. So once a date is set, the same-day start index `last_index - n + 1` is never negative. |
| `Schedule.NewDayWindow` | lbot.py:68-75 | On a new day the batch is `posts[last_index+1 : last_index+1+n]`, holding at most `n` posts, in order. It is saved, and the cursor moves on by exactly `n`, exactly when a post lies past the cursor and `n` is positive. This holds for any cursor at or past the default one. |
| `Schedule.FirstRun` | lbot.py:68-70 | The first run ever, from `(None, -1)`, selects the first `n` posts. |
| `Schedule.SameDayReplay` | lbot.py:64-66 | On the day of the last advance, the call returns `posts[last_index-n+1 : last_index+1]` and leaves the cursor alone. For a reachable cursor, that start index is never negative. |
| `Schedule.ReplayRepeatsAdvance` | lbot.py:64-75 | A second call on the day of an advance, over the same feed, returns the batch the advance selected and saves nothing. |
| `Schedule.Exhausted` | lbot.py:70-77 | Once the window lies past the end of the feed, a new day selects nothing and leaves the cursor alone, for any cursor at or past the default one. |
| `Schedule.CursorAtNext` | lbot.py:72-74 | The cursor after run `i + 1` is the cursor run `i` leaves behind. |
| `Schedule.CursorMonotone` | lbot.py:72-74 | The cursor's index never moves back over a run of calls. |
| `Schedule.PickedIsBatch` | lbot.py:68-70 | A new-day batch is exactly the posts at the positions that run picks, contiguous from the cursor, in order. |
| `Schedule.NoPositionTwice` | lbot.py:68-74 | No position of the feed is picked on two different new-day runs: the daily batches are disjoint. |
| `Schedule.SevenPostsThreeADay` | lbot.py:68-77 | Seven posts, three a day, on four distinct days: the batches are posts 0-2, 3-5, then 6, then nothing. The cursor ends at 8. |
| `Schedule.GrownFeedSkipsGap` | lbot.py:74 | With the cursor at 8 and the feed grown to ten posts, the next day's batch is post 9 alone. |

## Left out

- The HTTP request (`requests.get`, `raise_for_status`, lbot.py:21-23). `FetchPosts` takes the response text as its parameter.
- The tracking file (lbot.py:48-57): the existence test, `json.load` and `json.dump`. The stored cursor goes into `Tracker.Load`, and the saved one is read from the `Tracker` object after `GetTodaysPosts`. A file whose JSON lacks a key or has other types, which makes the source raise, is not modelled.
- `date.today()` (lbot.py:62). It is a parameter `today`, the text of the date.
- `upload_image` and `post_to_linkedin` (lbot.py:83-150). They call the LinkedIn REST API.
- The `__main__` driver, its console output and `time.sleep(30)` (lbot.py:156-166). They are process entry and timing, with no logic of their own.
- The credentials and URL constants (lbot.py:10-13). They are configuration. `POSTS_PER_DAY` is the constant `PostsPerDay` (3) and the parameter `postsPerDay` of `GetTodaysPosts`.
- Text is a sequence of Unicode code points, as Python `str` is. The decoding of the response bytes by `requests` is not modelled.
