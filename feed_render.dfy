/** The feed format written out: a renderer that lays posts out as
    `===POST_START===` chunks, and the round trip through the parser. This is
    the inverse the parser is meant to have on every post it could itself
    emit, as long as no text or image entry holds one of the three markers. */
module FeedRender {
  import opened Wrappers
  import opened PyStr
  import opened Feed

  /** `s` holds none of the markers. */
  predicate MarkerFree(s: String) {
    !Contains(s, PostStart) && !Contains(s, PostEnd) && !Contains(s, ImagesMarker)
  }

  /** A post the renderer can lay out so that it parses back to itself. */
  predicate Renderable(p: Post) {
    WellFormed(p) && MarkerFree(p.text)
    && forall k :: 0 <= k < |p.images| ==> MarkerFree(p.images[k])
  }

  /** Every post of `ps` is renderable. The trigger keeps the solver from
      unfolding `Renderable` for every post it merely mentions. */
  predicate AllRenderable(ps: seq<Post>) {
    forall k {:trigger Renderable(ps[k])} :: 0 <= k < |ps| ==> Renderable(ps[k])
  }

  /** One line per image entry, each preceded by a line break. */
  function Lines(images: seq<String>): String {
    if images == [] then [] else "\n" + images[0] + Lines(images[1..])
  }

  /** What stands between the two markers of a post's chunk. */
  function BodyText(p: Post): String {
    if p.images == [] then p.text else p.text + "\n" + ImagesMarker + Lines(p.images)
  }

  /** A post's chunk, as it follows `===POST_START===`. */
  function Chunk(p: Post): String {
    "\n" + BodyText(p) + "\n" + PostEnd + "\n"
  }

  /** The feed text holding the posts `ps`, in order. */
  function Render(ps: seq<Post>): String {
    if ps == [] then [] else PostStart + Chunk(ps[0]) + Render(ps[1..])
  }

  function Chunks(ps: seq<Post>): seq<String> {
    seq(|ps|, k requires 0 <= k < |ps| => Chunk(ps[k]))
  }

  // ---------------------------------------------------------------------------
  // Markers in rendered text
  // ---------------------------------------------------------------------------

  lemma NewlineOutsideMarkers()
    ensures '\n' !in PostStart && '\n' !in PostEnd && '\n' !in ImagesMarker
  {
  }

  lemma ShortMarkers()
    ensures !Contains([], PostStart) && !Contains([], PostEnd) && !Contains([], ImagesMarker)
    ensures !Contains(PostEnd, PostStart) && !Contains(ImagesMarker, PostStart)
    ensures !Contains(ImagesMarker, PostEnd)
  {
    ShorterNotContains([], PostStart);
    ShorterNotContains([], PostEnd);
    ShorterNotContains([], ImagesMarker);
    ShorterNotContains(PostEnd, PostStart);
    ShorterNotContains(ImagesMarker, PostStart);
    ShorterNotContains(ImagesMarker, PostEnd);
  }

  /** Gluing two pieces at a line break creates no marker. */
  lemma GlueFree(a: String, b: String, sep: String)
    requires sep != [] && '\n' !in sep
    requires !Contains(a, sep) && !Contains(b, sep)
    ensures !Contains(a + "\n" + b, sep)
  {
    NoneAcross(a, '\n', b, sep);
    assert a + "\n" + b == a + ['\n'] + b;
  }

  lemma LeadFree(b: String, sep: String)
    requires sep != [] && '\n' !in sep && !Contains(b, sep)
    ensures !Contains("\n" + b, sep)
  {
    ShorterNotContains([], sep);
    GlueFree([], b, sep);
    assert [] + "\n" + b == "\n" + b;
  }

  lemma TrailFree(a: String, sep: String)
    requires sep != [] && '\n' !in sep && !Contains(a, sep)
    ensures !Contains(a + "\n", sep)
  {
    ShorterNotContains([], sep);
    GlueFree(a, [], sep);
    assert a + "\n" + [] == a + "\n";
  }

  lemma {:induction false} LinesFree(x: String, images: seq<String>, sep: String)
    requires sep != [] && '\n' !in sep && !Contains(x, sep)
    requires forall k :: 0 <= k < |images| ==> !Contains(images[k], sep)
    ensures !Contains(x + Lines(images), sep)
    decreases |images|
  {
    if images == [] {
      assert x + Lines(images) == x;
    } else {
      LinesFree(images[0], images[1..], sep);
      GlueFree(x, images[0] + Lines(images[1..]), sep);
      Regroup(x, "\n", images[0], Lines(images[1..]));
    }
  }

  lemma BodyTextFree(p: Post, sep: String)
    requires Renderable(p)
    requires sep == PostStart || sep == PostEnd
    ensures !Contains(BodyText(p), sep)
  {
    if p.images != [] {
      NewlineOutsideMarkers();
      ShortMarkers();
      var t := p.text + "\n" + ImagesMarker;
      GlueFree(p.text, ImagesMarker, sep);
      LinesFree(t, p.images, sep);
    }
  }

  // ---------------------------------------------------------------------------
  // The image section
  // ---------------------------------------------------------------------------

  /** The last character of the image lines is that of the last entry. */
  lemma {:induction false} LinesLast(images: seq<String>)
    requires images != [] && images[|images| - 1] != []
    ensures var l := Lines(images); var x := images[|images| - 1];
            l != [] && l[|l| - 1] == x[|x| - 1]
    decreases |images|
  {
    var rest := images[1..];
    var head := "\n" + images[0];
    assert Lines(images) == head + Lines(rest);
    if rest == [] {
      assert Lines(images) == head;
    } else {
      LinesLast(rest);
      assert rest[|rest| - 1] == images[|images| - 1];
      var t := Lines(rest);
      assert (head + t)[|head + t| - 1] == t[|t| - 1];
    }
  }

  /** The lines of `x` followed by the image lines are `x` and the entries. */
  lemma {:induction false} SplitLinesOfLines(x: String, images: seq<String>)
    requires x != [] && NoLineBreak(x)
    requires forall k :: 0 <= k < |images| ==> images[k] != [] && NoLineBreak(images[k])
    ensures SplitLines(x + Lines(images)) == [x] + images
    decreases |images|
  {
    if images == [] {
      assert x + Lines(images) == x;
      SplitLinesOne(x);
    } else {
      SplitLinesOfLines(images[0], images[1..]);
      Regroup(x, "\n", images[0], Lines(images[1..]));
      SplitLinesCons(x, '\n', images[0] + Lines(images[1..]));
      assert [images[0]] + images[1..] == images;
    }
  }

  /** Regrouping a concatenation of four texts, kept apart so that the
      solver does not prove it again inside larger proofs. */
  lemma Regroup(a: String, b: String, c: String, d: String)
    ensures a + (b + c + d) == a + b + (c + d)
  {
  }

  /** Entries that are already clean image locators are kept as they are. */
  lemma {:induction false} KeepLocators(images: seq<String>)
    requires forall k :: 0 <= k < |images| ==> NoLineBreak(images[k])
    requires forall k :: 0 <= k < |images| ==> IsImageLocator(images[k])
    ensures KeepNonBlank(images) == images
    decreases |images|
  {
    if images != [] {
      KeepLocators(images[1..]);
      assert [images[0]] + images[1..] == images;
    }
  }

  /** A leading line break starts with an empty line. */
  lemma LeadingBreak(b: String)
    ensures SplitLines("\n" + b) == [[]] + SplitLines(b)
  {
    SplitLinesCons([], '\n', b);
    assert [] + "\n" + b == "\n" + b;
  }

  /** The image lines open with a line break. */
  lemma LinesHead(images: seq<String>)
    requires images != []
    ensures SplitLines(Lines(images)) == [[]] + SplitLines(images[0] + Lines(images[1..]))
  {
    assert Lines(images) == "\n" + (images[0] + Lines(images[1..]));
    LeadingBreak(images[0] + Lines(images[1..]));
  }

  /** After that line break come the entries, one per line. */
  lemma EntriesLines(images: seq<String>)
    requires images != []
    requires forall k :: 0 <= k < |images| ==> images[k] != [] && NoLineBreak(images[k])
    ensures SplitLines(images[0] + Lines(images[1..])) == images
  {
    SplitLinesOfLines(images[0], images[1..]);
    assert [images[0]] + images[1..] == images;
  }

  /** The image lines are an empty line, then one line per entry. */
  lemma SplitLinesOfAllLines(images: seq<String>)
    requires images != []
    requires forall k :: 0 <= k < |images| ==> images[k] != [] && NoLineBreak(images[k])
    ensures SplitLines(Lines(images)) == [[]] + images
  {
    LinesHead(images);
    EntriesLines(images);
  }

  /** The image lines parse back to the entries. */
  lemma ImageLinesOfLines(images: seq<String>)
    requires images != []
    requires forall k :: 0 <= k < |images| ==> IsImageLocator(images[k])
    ensures ImageLines(Lines(images)) == images
  {
    SplitLinesOfAllLines(images);
    assert ([[]] + images)[1..] == images;
    KeepLocators(images);
  }

  // ---------------------------------------------------------------------------
  // One chunk
  // ---------------------------------------------------------------------------

  /** An image entry neither starts nor ends with whitespace. */
  lemma LocatorTrimmed(x: String)
    requires IsImageLocator(x)
    ensures !IsSpace(x[0]) && !IsSpace(x[|x| - 1])
  {
    assert Trimmed(Strip(x));
  }

  /** What stands between the markers is a non-empty stripped text. */
  lemma BodyTextTrimmed(p: Post)
    requires Renderable(p)
    ensures BodyText(p) != [] && Trimmed(BodyText(p))
  {
    assert Trimmed(Strip(p.text));
    if p.images != [] {
      assert IsImageLocator(p.images[|p.images| - 1]);
      LocatorTrimmed(p.images[|p.images| - 1]);
      LinesLast(p.images);
      var head, lines := p.text + "\n" + ImagesMarker, Lines(p.images);
      assert (head + lines)[0] == head[0] == p.text[0];
      assert (head + lines)[|head + lines| - 1] == lines[|lines| - 1];
    }
  }

  /** The body of a post's chunk is the text between its markers. */
  lemma ChunkBody(p: Post)
    requires Renderable(p)
    ensures Contains(Chunk(p), PostEnd)
    ensures Body(Chunk(p)) == BodyText(p)
  {
    NewlineOutsideMarkers();
    BodyTextFree(p, PostEnd);
    LeadFree(BodyText(p), PostEnd);
    TrailFree("\n" + BodyText(p), PostEnd);
    SplitAfter("\n" + BodyText(p) + "\n", PostEnd, "\n");
    BodyTextTrimmed(p);
    StripPadded("\n", BodyText(p), "\n");
  }

  /** A text line ending in a line break holds no image marker. */
  lemma TextLineFree(text: String)
    requires !Contains(text, ImagesMarker)
    ensures !Contains(text + "\n", ImagesMarker)
  {
    NewlineOutsideMarkers();
    TrailFree(text, ImagesMarker);
  }

  /** Image lines hold no image marker. */
  lemma LinesWithoutMarker(images: seq<String>)
    requires forall k :: 0 <= k < |images| ==> MarkerFree(images[k])
    ensures !Contains(Lines(images), ImagesMarker)
  {
    NewlineOutsideMarkers();
    ShortMarkers();
    LinesFree([], images, ImagesMarker);
    assert [] + Lines(images) == Lines(images);
  }

  /** The body of a post with images splits at its one image marker. */
  lemma ImagesSplit(p: Post)
    requires Renderable(p) && p.images != []
    ensures Split(BodyText(p), ImagesMarker) == [p.text + "\n", Lines(p.images)]
  {
    NewlineOutsideMarkers();
    TextLineFree(p.text);
    LinesWithoutMarker(p.images);
    assert BodyText(p) == (p.text + "\n") + ImagesMarker + Lines(p.images);
    SplitAfter(p.text + "\n", ImagesMarker, Lines(p.images));
    SplitNone(Lines(p.images), ImagesMarker);
  }

  /** Stripping a text line gives back the text. */
  lemma StripLineEnd(text: String)
    requires text != [] && Trimmed(text)
    ensures Strip(text + "\n") == text
  {
    StripPadded([], text, "\n");
    assert [] + text + "\n" == text + "\n";
  }

  /** Every renderable post's chunk parses to that post. */
  lemma ChunkRoundTrip(p: Post)
    requires Renderable(p)
    ensures ParseChunk(Chunk(p)) == Success(Some(p))
  {
    ChunkBody(p);
    if p.images == [] {
      StripTrimmed(p.text);
    } else {
      ImagesSplit(p);
      StripLineEnd(p.text);
      ImageLinesOfLines(p.images);
    }
  }

  // ---------------------------------------------------------------------------
  // The whole feed
  // ---------------------------------------------------------------------------

  lemma ChunkFree(p: Post)
    requires Renderable(p)
    ensures !Contains(Chunk(p), PostStart)
    ensures Chunk(p)[|Chunk(p)| - 1] !in PostStart
  {
    NewlineOutsideMarkers();
    ShortMarkers();
    BodyTextFree(p, PostStart);
    LeadFree(BodyText(p), PostStart);
    GlueFree("\n" + BodyText(p), PostEnd, PostStart);
    TrailFree("\n" + BodyText(p) + "\n" + PostEnd, PostStart);
  }

  lemma RenderCons(x: String, ps: seq<Post>)
    requires ps != []
    ensures x + Render(ps) == x + PostStart + (Chunk(ps[0]) + Render(ps[1..]))
  {
    Regroup(x, PostStart, Chunk(ps[0]), Render(ps[1..]));
  }

  lemma ChunksCons(ps: seq<Post>)
    requires ps != []
    ensures Chunks(ps) == [Chunk(ps[0])] + Chunks(ps[1..])
  {
  }

  /** The first start marker of the feed text ends the part before it. */
  lemma SplitRenderStep(x: String, ps: seq<Post>)
    requires ps != []
    requires !Contains(x, PostStart) && (x != [] ==> x[|x| - 1] !in PostStart)
    ensures Split(x + Render(ps), PostStart) == [x] + Split(Chunk(ps[0]) + Render(ps[1..]), PostStart)
  {
    RenderCons(x, ps);
    SplitAfter(x, PostStart, Chunk(ps[0]) + Render(ps[1..]));
  }

  /** The feed text cut at the start markers: what precedes the first
      marker, then one chunk per post. */
  lemma {:induction false} SplitRender(x: String, ps: seq<Post>)
    requires AllRenderable(ps)
    requires !Contains(x, PostStart) && (x != [] ==> x[|x| - 1] !in PostStart)
    ensures Split(x + Render(ps), PostStart) == [x] + Chunks(ps)
    decreases |ps|
  {
    if ps == [] {
      assert x + Render(ps) == x;
      SplitNone(x, PostStart);
    } else {
      SplitRenderStep(x, ps);
      ChunkFree(ps[0]);
      SplitRender(Chunk(ps[0]), ps[1..]);
      ChunksCons(ps);
    }
  }

  /** Chunk `k` of `cs` yields post `k` of `ps`. */
  predicate YieldsAt(cs: seq<String>, ps: seq<Post>, k: int)
    requires |cs| == |ps|
  {
    0 <= k < |cs| && ParseChunk(cs[k]) == Success(Some(ps[k]))
  }

  /** A last chunk that yields a post adds it after the others' posts. */
  lemma ParseChunksPush(cs: seq<String>, posts: seq<Post>, p: Post)
    requires cs != [] && ParseChunks(cs[..|cs| - 1]) == Success(posts)
    requires ParseChunk(cs[|cs| - 1]) == Success(Some(p))
    ensures ParseChunks(cs) == Success(posts + [p])
  {
  }

  /** A non-empty sequence is its front followed by its last element (kept
      apart so that the solver does not prove it again inside larger proofs). */
  lemma LastSplit<T>(s: seq<T>)
    requires s != []
    ensures s[..|s| - 1] + [s[|s| - 1]] == s
  {
  }

  lemma YieldsPrefix(cs: seq<String>, ps: seq<Post>, n: nat)
    requires |cs| == |ps| && n <= |cs|
    requires forall k :: 0 <= k < |cs| ==> YieldsAt(cs, ps, k)
    ensures forall k :: 0 <= k < n ==> YieldsAt(cs[..n], ps[..n], k)
  {
    forall k | 0 <= k < n ensures YieldsAt(cs[..n], ps[..n], k) {
      assert YieldsAt(cs, ps, k);
    }
  }

  /** Chunks that each yield one post parse to those posts, in order. */
  lemma {:induction false} ParseChunksOfPosts(cs: seq<String>, ps: seq<Post>)
    requires |cs| == |ps|
    requires forall k :: 0 <= k < |cs| ==> YieldsAt(cs, ps, k)
    ensures ParseChunks(cs) == Success(ps)
    decreases |ps|
  {
    if ps != [] {
      var n := |ps| - 1;
      YieldsPrefix(cs, ps, n);
      ParseChunksOfPosts(cs[..n], ps[..n]);
      assert YieldsAt(cs, ps, n);
      ParseChunksPush(cs, ps[..n], ps[n]);
      LastSplit(ps);
    }
  }

  /** Every chunk of renderable posts yields its post. */
  lemma ChunksRoundTrip(ps: seq<Post>)
    requires AllRenderable(ps)
    ensures forall k :: 0 <= k < |ps| ==> YieldsAt(Chunks(ps), ps, k)
  {
    forall k | 0 <= k < |ps| ensures YieldsAt(Chunks(ps), ps, k) {
      ChunkRoundTrip(ps[k]);
    }
  }

  /** The text before the first start marker, empty here, yields nothing. */
  lemma EmptyLead()
    ensures ParseChunks([[]]) == Success([])
  {
    ShortMarkers();
    ParseOneChunk([]);
  }

  /** The rendered feed cut at its start markers: an empty lead, then the
      chunks. */
  lemma SplitRendered(ps: seq<Post>)
    requires AllRenderable(ps)
    ensures Split(Render(ps), PostStart) == [[]] + Chunks(ps)
  {
    SplitRender([], ps);
    assert [] + Render(ps) == Render(ps);
    assert Split([] + Render(ps), PostStart) == Split(Render(ps), PostStart);
  }

  /** The empty lead and the chunks parse to the posts. */
  lemma ParseLeadAndChunks(ps: seq<Post>)
    requires AllRenderable(ps)
    ensures ParseChunks([[]] + Chunks(ps)) == Success(ps)
  {
    EmptyLead();
    ParseChunksAppend([[]], Chunks(ps));
    ChunksRoundTrip(ps);
    ParseChunksOfPosts(Chunks(ps), ps);
    assert [] + ps == ps;
  }

  /** Round trip: parsing the rendered feed gives back the posts, in order. */
  lemma ParseRender(ps: seq<Post>)
    requires AllRenderable(ps)
    ensures ParseFeed(Render(ps)) == Success(ps)
  {
    SplitRendered(ps);
    ParseLeadAndChunks(ps);
  }

  // ---------------------------------------------------------------------------
  // Text outside a start marker
  // ---------------------------------------------------------------------------

  /** A post's text followed by an end marker parses as a chunk of its own
      when no start marker precedes it: the text before the first start
      marker is not skipped. */
  lemma UnopenedPost(text: String)
    requires Renderable(Post(text, []))
    ensures ParseFeed(text + "\n" + PostEnd) == Success([Post(text, [])])
  {
    var content := text + "\n" + PostEnd;
    NewlineOutsideMarkers();
    ShortMarkers();
    GlueFree(text, PostEnd, PostStart);
    SplitNone(content, PostStart);
    TrailFree(text, PostEnd);
    assert content == (text + "\n") + PostEnd + [];
    SplitAfter(text + "\n", PostEnd, []);
    StripLineEnd(text);
    assert Body(content) == text;
    StripTrimmed(text);
    ParseOneChunk(content);
  }
}
