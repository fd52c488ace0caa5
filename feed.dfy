/** The feed parser of `fetch_posts_from_github` (everything after the HTTP
    request): the feed text is cut into chunks at `===POST_START===`; a chunk
    that holds `===POST_END===` contributes the stripped text before that
    marker, optionally split at `===IMAGES===` into a text part and one image
    locator per non-blank line. Posts are identified by their position in the
    resulting list. */
module Feed {
  import opened Wrappers
  import opened PyStr

  const PostStart: String := "===POST_START==="
  const PostEnd: String := "===POST_END==="
  const ImagesMarker: String := "===IMAGES==="

  datatype Post = Post(text: String, images: seq<String>)

  /** The one exception the parsing code can raise on feed text: the two-way
      unpacking `text, images_block = body.split("===IMAGES===")` fails when a
      body holds the marker more than once, and that aborts the whole fetch. */
  datatype ParseError = TooManyImageMarkers

  /** An entry of a post's `images` list: a non-empty, stripped line. */
  predicate IsImageLocator(x: String) {
    x != [] && Strip(x) == x && NoLineBreak(x)
  }

  /** What every post the parser emits looks like. */
  predicate WellFormed(p: Post) {
    p.text != [] && Strip(p.text) == p.text
    && forall k :: 0 <= k < |p.images| ==> IsImageLocator(p.images[k])
  }

  // ---------------------------------------------------------------------------
  // The image section
  // ---------------------------------------------------------------------------

  /** A stripped line that is not blank is a valid image entry. */
  lemma StrippedLine(line: String)
    requires NoLineBreak(line) && Strip(line) != []
    ensures IsImageLocator(Strip(line))
  {
    var l := Strip(line);
    StripTrimmed(l);
    StripSlice(line);
    var i := LeftMargin(line);
    forall k | 0 <= k < |l| ensures !IsLineBreak(l[k]) {
      assert l[k] == line[i + k];
    }
  }

  /** `[line.strip() for line in lines if line.strip()]` */
  function KeepNonBlank(lines: seq<String>): (r: seq<String>)
    requires forall k :: 0 <= k < |lines| ==> NoLineBreak(lines[k])
    ensures |r| <= |lines|
    ensures forall k :: 0 <= k < |r| ==> IsImageLocator(r[k])
  {
    if lines == [] then []
    else
      var line := Strip(lines[0]);
      var rest := KeepNonBlank(lines[1..]);
      if line != [] then
        StrippedLine(lines[0]);
        assert forall k :: 0 < k < |rest| + 1 ==> ([line] + rest)[k] == rest[k - 1];
        [line] + rest
      else rest
  }

  /** The entries are exactly the stripped non-blank lines: each such line
      gives an entry, and each entry comes from such a line. */
  lemma {:induction false} KeepNonBlankMembers(lines: seq<String>)
    requires forall k :: 0 <= k < |lines| ==> NoLineBreak(lines[k])
    ensures forall line :: line in lines && !AllSpace(line) ==> Strip(line) in KeepNonBlank(lines)
    ensures forall x :: x in KeepNonBlank(lines) ==> exists line :: line in lines && !AllSpace(line) && x == Strip(line)
  {
    if lines != [] {
      KeepNonBlankMembers(lines[1..]);
      assert lines == [lines[0]] + lines[1..];
    }
  }

  /** The image locators of the text after `===IMAGES===`: its trimmed,
      non-blank lines, in order. */
  function ImageLines(block: String): (r: seq<String>)
    ensures forall k :: 0 <= k < |r| ==> IsImageLocator(r[k])
    ensures forall line :: line in SplitLines(block) && !AllSpace(line) ==> Strip(line) in r
    ensures forall x :: x in r ==> exists line :: line in SplitLines(block) && !AllSpace(line) && x == Strip(line)
  {
    KeepNonBlankMembers(SplitLines(block));
    KeepNonBlank(SplitLines(block))
  }

  /** Blank lines contribute nothing, so keeping the non-blank lines of two
      stretches of lines is keeping those of each, in order. */
  lemma {:induction false} KeepNonBlankAppend(a: seq<String>, b: seq<String>)
    requires forall k :: 0 <= k < |a| ==> NoLineBreak(a[k])
    requires forall k :: 0 <= k < |b| ==> NoLineBreak(b[k])
    ensures KeepNonBlank(a + b) == KeepNonBlank(a) + KeepNonBlank(b)
  {
    if a != [] {
      assert (a + b)[0] == a[0];
      assert (a + b)[1..] == a[1..] + b;
      KeepNonBlankAppend(a[1..], b);
    } else {
      assert a + b == b;
    }
  }

  /** What one line contributes to the images: nothing when it is blank,
      otherwise its `strip()`. */
  function Kept(line: String): seq<String> {
    if AllSpace(line) then [] else [Strip(line)]
  }

  /** Each line on its own contributes what `Kept` says. */
  lemma KeepNonBlankLine(line: String)
    requires NoLineBreak(line)
    ensures KeepNonBlank([line]) == Kept(line)
  {
    assert [line][1..] == [];
  }

  lemma LinesAppendLine(a: seq<String>, line: String)
    requires forall k :: 0 <= k < |a| ==> NoLineBreak(a[k])
    requires NoLineBreak(line)
    ensures forall k :: 0 <= k < |a + [line]| ==> NoLineBreak((a + [line])[k])
  {
    forall k | 0 <= k < |a + [line]| ensures NoLineBreak((a + [line])[k]) {
      if k < |a| { assert (a + [line])[k] == a[k]; }
    }
  }

  /** A line anywhere in the list contributes its `strip()`, unless it is
      blank, at its own place between the entries of the lines around it. */
  lemma KeepNonBlankAt(a: seq<String>, line: String, b: seq<String>)
    requires forall k :: 0 <= k < |a| ==> NoLineBreak(a[k])
    requires NoLineBreak(line)
    requires forall k :: 0 <= k < |b| ==> NoLineBreak(b[k])
    ensures KeepNonBlank(a + [line] + b) == KeepNonBlank(a) + Kept(line) + KeepNonBlank(b)
  {
    LinesAppendLine(a, line);
    KeepNonBlankAppend(a + [line], b);
    KeepNonBlankAppend(a, [line]);
    KeepNonBlankLine(line);
  }

  /** A line boundary of `splitlines()` between `line` and `rest`: `\r\n`,
      or one boundary character (a `\r` only when no `\n` follows). */
  predicate IsBoundary(brk: String, rest: String) {
    brk == "\r\n"
    || (|brk| == 1 && IsLineBreak(brk[0]) && (brk[0] == '\r' ==> rest == [] || rest[0] != '\n'))
  }

  /** The image block line by line: its first line, if not blank, gives the
      first image, stripped; the images of the rest follow. */
  lemma ImageLinesAfterLine(line: String, brk: String, rest: String)
    requires NoLineBreak(line) && IsBoundary(brk, rest)
    ensures ImageLines(line + brk + rest) == Kept(line) + ImageLines(rest)
  {
    if brk == "\r\n" {
      SplitLinesCrLf(line, rest);
    } else {
      assert brk == [brk[0]];
      SplitLinesCons(line, brk[0], rest);
    }
    KeepNonBlankAppend([line], SplitLines(rest));
    KeepNonBlankLine(line);
  }

  /** The last line of the image block, if not blank, gives the last image,
      stripped. */
  lemma ImageLinesLastLine(line: String)
    requires NoLineBreak(line)
    ensures ImageLines(line) == Kept(line)
  {
    if line != [] {
      SplitLinesOne(line);
      KeepNonBlankLine(line);
    }
  }

  // ---------------------------------------------------------------------------
  // One chunk
  // ---------------------------------------------------------------------------

  /** `raw.split("===POST_END===")[0].strip()`: the stripped text before
      the first end marker. */
  function Body(raw: String): (r: String)
    ensures |r| <= |raw| && Trimmed(r)
    ensures Contains(raw, PostEnd) ==> r == Strip(raw[..Find(raw, PostEnd).value])
  {
    var first := Split(raw, PostEnd)[0];
    assert Contains(raw, PostEnd) ==> first == raw[..Find(raw, PostEnd).value] by {
      if Contains(raw, PostEnd) {
        SplitHead(raw, PostEnd);
      }
    }
    assert |first| <= |raw| by {
      SplitJoin(raw, PostEnd);
      if Contains(raw, PostEnd) {
        SplitHead(raw, PostEnd);
      }
    }
    Strip(first)
  }

  /** The post for a text part and its images, unless the text is blank. */
  function Emit(text: String, images: seq<String>): (r: Result<Option<Post>, ParseError>)
    requires forall k :: 0 <= k < |images| ==> IsImageLocator(images[k])
    ensures r.Success? && (r.value.Some? <==> !AllSpace(text))
    ensures r.value.Some? ==> WellFormed(r.value.value) && r.value.value.text == Strip(text) && r.value.value.images == images
  {
    if Strip(text) != [] then
      StripTrimmed(Strip(text));
      Success(Some(Post(Strip(text), images)))
    else Success(None)
  }

  /** One iteration of the parsing loop on the chunk `raw`: no post, one
      post, or the unpacking error. */
  function ParseChunk(raw: String): (r: Result<Option<Post>, ParseError>)
    ensures !Contains(raw, PostEnd) ==> r == Success(None)
    ensures r.Success? && r.value.Some? ==> WellFormed(r.value.value)
  {
    if Contains(raw, PostEnd) then
      var body := Body(raw);
      if Contains(body, ImagesMarker) then
        var parts := Split(body, ImagesMarker);
        if |parts| != 2 then Failure(TooManyImageMarkers)
        else Emit(parts[0], ImageLines(parts[1]))
      else Emit(body, [])
    else Success(None)
  }

  /** A chunk without an end marker yields nothing; a chunk fails exactly
      when its body holds the image marker twice or more; a post it yields
      has non-empty stripped text and clean image entries. */
  lemma ParseChunkFacts(raw: String)
    ensures !Contains(raw, PostEnd) ==> ParseChunk(raw) == Success(None)
    ensures ParseChunk(raw).Failure? <==> Contains(raw, PostEnd) && |Split(Body(raw), ImagesMarker)| > 2
    ensures ParseChunk(raw).Success? && ParseChunk(raw).value.Some? ==>
              Contains(raw, PostEnd) && WellFormed(ParseChunk(raw).value.value)
  {
    if Contains(raw, PostEnd) {
      var body := Body(raw);
      if Contains(body, ImagesMarker) {
        var parts := Split(body, ImagesMarker);
        StripTrimmed(Strip(parts[0]));
      } else {
        StripTrimmed(Strip(body));
      }
    }
  }

  // ---------------------------------------------------------------------------
  // The whole feed
  // ---------------------------------------------------------------------------

  /** How many chunks hold an end marker. */
  function CountClosed(chunks: seq<String>): (n: nat)
    ensures n <= |chunks|
  {
    if chunks == [] then 0
    else CountClosed(chunks[..|chunks| - 1]) + (if Contains(chunks[|chunks| - 1], PostEnd) then 1 else 0)
  }

  /** The parse result of the chunks before a chunk, extended by what that
      chunk yields. */
  function Push(posts: seq<Post>, one: Result<Option<Post>, ParseError>): Result<seq<Post>, ParseError> {
    match one
    case Failure(e) => Failure(e)
    case Success(None) => Success(posts)
    case Success(Some(p)) => Success(posts + [p])
  }

  /** The parsing loop run over `chunks`, left to right: the posts of the
      chunks in order, unless one of them raises. */
  function ParseChunks(chunks: seq<String>): (r: Result<seq<Post>, ParseError>)
    ensures r.Success? ==> |r.value| <= |chunks|
  {
    if chunks == [] then Success([])
    else
      match ParseChunks(chunks[..|chunks| - 1])
      case Failure(e) => Failure(e)
      case Success(posts) => Push(posts, ParseChunk(chunks[|chunks| - 1]))
  }

  /** Some chunk of `chunks`, taken alone, raises. */
  predicate SomeChunkFails(chunks: seq<String>) {
    exists k :: 0 <= k < |chunks| && ParseChunk(chunks[k]).Failure?
  }

  /** A chunk raises among `chunks` exactly when one raises before the last
      chunk or the last one does. */
  lemma SomeChunkFailsLast(chunks: seq<String>)
    requires chunks != []
    ensures SomeChunkFails(chunks)
            <==> SomeChunkFails(chunks[..|chunks| - 1]) || ParseChunk(chunks[|chunks| - 1]).Failure?
  {
    ExistsSplitLast(chunks, chunks[..|chunks| - 1], c => ParseChunk(c).Failure?);
  }

  /** Something holds of an element of `xs` exactly when it holds before
      the last element or of the last one. */
  lemma ExistsSplitLast<T>(xs: seq<T>, init: seq<T>, p: T -> bool)
    requires xs != [] && init == xs[..|xs| - 1]
    ensures (exists k :: 0 <= k < |xs| && p(xs[k]))
            <==> (exists k :: 0 <= k < |init| && p(init[k])) || p(xs[|xs| - 1])
  {
    assert forall k :: 0 <= k < |init| ==> init[k] == xs[k];
  }

  /** Parsing fails exactly when some chunk raises. */
  lemma {:induction false} ParseFailsIff(chunks: seq<String>)
    ensures ParseChunks(chunks).Failure? <==> SomeChunkFails(chunks)
  {
    if chunks != [] {
      ParseFailsIff(chunks[..|chunks| - 1]);
      LastChunkFails(chunks);
      SomeChunkFailsLast(chunks);
    }
  }

  /** The loop fails over `chunks` exactly when it fails before the last
      chunk or at it. */
  lemma LastChunkFails(chunks: seq<String>)
    requires chunks != []
    ensures ParseChunks(chunks).Failure?
            <==> ParseChunks(chunks[..|chunks| - 1]).Failure? || ParseChunk(chunks[|chunks| - 1]).Failure?
  {
  }

  /** There are never more posts than chunks holding an end marker. */
  lemma {:induction false} PostCountBound(chunks: seq<String>)
    ensures ParseChunks(chunks).Success? ==> |ParseChunks(chunks).value| <= CountClosed(chunks)
  {
    if chunks != [] {
      PostCountBound(chunks[..|chunks| - 1]);
      ParseChunkFacts(chunks[|chunks| - 1]);
    }
  }

  /** Every post has non-empty text equal to its own `strip()`, and every
      image entry is a non-empty stripped line. */
  lemma {:induction false} PostsWellFormed(chunks: seq<String>)
    ensures ParseChunks(chunks).Success? ==>
              forall k :: 0 <= k < |ParseChunks(chunks).value| ==> WellFormed(ParseChunks(chunks).value[k])
  {
    if chunks != [] {
      PostsWellFormed(chunks[..|chunks| - 1]);
      ParseChunkFacts(chunks[|chunks| - 1]);
    }
  }

  /** The value of `fetch_posts_from_github()` for the feed text `content`. */
  function ParseFeed(content: String): (r: Result<seq<Post>, ParseError>)
    ensures r.Success? ==> |r.value| <= CountClosed(Split(content, PostStart))
    ensures r.Success? ==> forall k :: 0 <= k < |r.value| ==> WellFormed(r.value[k])
  {
    PostCountBound(Split(content, PostStart));
    PostsWellFormed(Split(content, PostStart));
    ParseChunks(Split(content, PostStart))
  }

  /** `fetch_posts_from_github` after its HTTP request: the loop over the
      chunks, appending one post per chunk that yields one. */
  method FetchPosts(content: String) returns (r: Result<seq<Post>, ParseError>)
    ensures r == ParseFeed(content)
  {
    var rawPosts := Split(content, PostStart);
    var posts: seq<Post> := [];
    var i := 0;
    while i < |rawPosts|
      invariant 0 <= i <= |rawPosts|
      invariant ParseChunks(rawPosts[..i]) == Success(posts)
    {
      var raw := rawPosts[i];
      ParseChunksStep(rawPosts, i, posts);
      if Contains(raw, PostEnd) {
        var body := Strip(Split(raw, PostEnd)[0]);
        var text: String, images: seq<String>;
        if Contains(body, ImagesMarker) {
          var parts := Split(body, ImagesMarker);
          if |parts| != 2 {
            assert ParseChunk(raw) == Failure(TooManyImageMarkers);
            FailureSticks(rawPosts, i + 1);
            return Failure(TooManyImageMarkers);
          }
          text, images := parts[0], ImageLines(parts[1]);
        } else {
          text, images := body, [];
        }
        assert ParseChunk(raw) == Emit(text, images);
        if Strip(text) != [] {
          posts := posts + [Post(Strip(text), images)];
        }
      } else {
        assert ParseChunk(raw) == Success(None);
      }
      i := i + 1;
    }
    assert rawPosts[..i] == rawPosts;
    return Success(posts);
  }

  /** One turn of the parsing loop: chunk `i` extends the posts of the
      chunks before it. */
  lemma ParseChunksStep(chunks: seq<String>, i: nat, posts: seq<Post>)
    requires i < |chunks| && ParseChunks(chunks[..i]) == Success(posts)
    ensures ParseChunks(chunks[..i + 1]) == Push(posts, ParseChunk(chunks[i]))
  {
    assert chunks[..i + 1][..i] == chunks[..i];
  }

  /** A failing prefix makes the whole parse fail with the same error. */
  lemma FailureSticks(chunks: seq<String>, i: nat)
    requires i <= |chunks| && ParseChunks(chunks[..i]).Failure?
    ensures ParseChunks(chunks) == ParseChunks(chunks[..i])
  {
    ParseChunksAppend(chunks[..i], chunks[i..]);
    assert chunks[..i] + chunks[i..] == chunks;
  }

  // ---------------------------------------------------------------------------
  // Properties of the parser
  // ---------------------------------------------------------------------------

  /** Sequencing two parse results: the first error wins, posts concatenate. */
  function Then(a: Result<seq<Post>, ParseError>, b: Result<seq<Post>, ParseError>): Result<seq<Post>, ParseError> {
    match a
    case Failure(e) => Failure(e)
    case Success(x) =>
      match b
      case Failure(e) => Failure(e)
      case Success(y) => Success(x + y)
  }

  /** Posts come out in chunk order: parsing two runs of chunks one after
      the other is parsing each run and concatenating the posts. */
  lemma {:induction false} ParseChunksAppend(a: seq<String>, b: seq<String>)
    ensures ParseChunks(a + b) == Then(ParseChunks(a), ParseChunks(b))
    decreases |b|
  {
    if b == [] {
      assert a + b == a;
      match ParseChunks(a)
      case Failure(_) =>
      case Success(x) => assert x + [] == x;
    } else {
      var b' := b[..|b| - 1];
      var last := b[|b| - 1];
      assert (a + b)[..|a + b| - 1] == a + b';
      assert (a + b)[|a + b| - 1] == last;
      ParseChunksAppend(a, b');
      match ParseChunks(a)
      case Failure(_) =>
      case Success(x) =>
        match ParseChunks(b')
        case Failure(_) =>
        case Success(y) => ThenPush(x, y, ParseChunk(last));
    }
  }

  lemma ThenPush(x: seq<Post>, y: seq<Post>, one: Result<Option<Post>, ParseError>)
    ensures Then(Success(x), Push(y, one)) == Push(x + y, one)
  {
    match one
    case Failure(_) =>
    case Success(None) =>
    case Success(Some(p)) => assert x + y + [p] == x + (y + [p]);
  }

  /** A single chunk parses to at most the one post it yields. */
  lemma ParseOneChunk(raw: String)
    ensures ParseChunks([raw]) == (match ParseChunk(raw)
                                   case Failure(e) => Failure(e)
                                   case Success(None) => Success([])
                                   case Success(Some(p)) => Success([p]))
  {
    assert [raw][..0] == [];
    match ParseChunk(raw)
    case Failure(_) =>
    case Success(None) =>
    case Success(Some(p)) => assert [] + [p] == [p];
  }

  /** Whatever follows the first end marker of a chunk is ignored. */
  lemma ChunkTailIgnored(raw: String, tail: String)
    requires Contains(raw, PostEnd)
    ensures ParseChunk(raw + tail) == ParseChunk(raw)
  {
    FindExtend(raw, PostEnd, tail);
    SplitHead(raw, PostEnd);
    SplitHead(raw + tail, PostEnd);
    var i := Find(raw, PostEnd).value;
    assert (raw + tail)[..i] == raw[..i];
  }

  /** Without an image marker the whole body is the text, and there are no
      images; an empty body yields no post. */
  lemma BodyWithoutImages(raw: String)
    requires Contains(raw, PostEnd) && !Contains(Body(raw), ImagesMarker)
    ensures ParseChunk(raw) == if Body(raw) == [] then Success(None)
                               else Success(Some(Post(Body(raw), [])))
  {
    StripTrimmed(Body(raw));
  }

  /** With exactly one image marker in the body, the body splits at it
      into the part before and the part after. */
  lemma OneImageMarker(body: String)
    requires Contains(body, ImagesMarker)
    requires var i := Find(body, ImagesMarker).value;
             !Contains(body[i + |ImagesMarker|..], ImagesMarker)
    ensures var i := Find(body, ImagesMarker).value;
            Split(body, ImagesMarker) == [body[..i], body[i + |ImagesMarker|..]]
  {
    var i := Find(body, ImagesMarker).value;
    SplitNone(body[i + |ImagesMarker|..], ImagesMarker);
  }

  /** A post whose text part, everything before the one image marker, is
      blank is dropped, however many images it lists. */
  lemma BlankTextDropped(raw: String)
    requires Contains(raw, PostEnd) && Contains(Body(raw), ImagesMarker)
    requires var i := Find(Body(raw), ImagesMarker).value;
             !Contains(Body(raw)[i + |ImagesMarker|..], ImagesMarker)
    requires AllSpace(Body(raw)[..Find(Body(raw), ImagesMarker).value])
    ensures ParseChunk(raw) == Success(None)
  {
    OneImageMarker(Body(raw));
  }

  /** With exactly one image marker, the text is the stripped part of the
      body before it and the images are the trimmed non-blank lines of the
      part after it; a blank text part yields no post. */
  lemma BodyWithImages(raw: String)
    requires Contains(raw, PostEnd) && Contains(Body(raw), ImagesMarker)
    requires var i := Find(Body(raw), ImagesMarker).value;
             !Contains(Body(raw)[i + |ImagesMarker|..], ImagesMarker)
    ensures var body := Body(raw);
            var i := Find(body, ImagesMarker).value;
            var text, block := body[..i], body[i + |ImagesMarker|..];
            ParseChunk(raw) == if AllSpace(text) then Success(None)
                               else Success(Some(Post(Strip(text), ImageLines(block))))
  {
    OneImageMarker(Body(raw));
  }

  /** A second image marker in the body makes the chunk fail. */
  lemma SecondImageMarkerFails(raw: String)
    requires Contains(raw, PostEnd) && Contains(Body(raw), ImagesMarker)
    requires var i := Find(Body(raw), ImagesMarker).value;
             Contains(Body(raw)[i + |ImagesMarker|..], ImagesMarker)
    ensures ParseChunk(raw) == Failure(TooManyImageMarkers)
  {
    var body := Body(raw);
    var i := Find(body, ImagesMarker).value;
    assert Split(body, ImagesMarker) == [body[..i]] + Split(body[i + |ImagesMarker|..], ImagesMarker);
  }
}
