/**
  The slide assembler of `generate` in src/components/catsplainer.tsx.

  The streamed response is a sequence of chunks; each chunk holds candidates,
  each candidate holds parts.  The assembler walks the parts in that order
  with two slots, the caption text gathered so far and the pending image, and
  emits a (caption, image) slide as soon as both slots are filled.  At the end
  of the stream a still-pending image is shown once more as a last slide.

  The Markdown rendering and DOM building of `addSlide` are replaced by
  appending to a sequence of slides; image payloads stay abstract.
*/
module SlideAssembly {

  import opened Options

  /** The inline image data of a part (its base64 payload). */
  datatype InlineData = InlineData(data: string)

  /** A part as it arrives on the wire: `text` and `inlineData` may each be absent. */
  datatype WirePart = WirePart(text: Option<string>, inlineData: Option<InlineData>)

  /** `candidate.content`, whose `parts` may be absent. */
  datatype Content = Content(parts: Option<seq<WirePart>>)

  /** A response candidate, whose `content` may be absent. */
  datatype Candidate = Candidate(content: Option<Content>)

  /** A streamed chunk; `candidates` may be absent. */
  datatype Chunk = Chunk(candidates: Option<seq<Candidate>>)

  /** What the assembler makes of a part. */
  datatype Part = Text(s: string) | Image(d: InlineData) | Other

  /** One emitted slide. */
  datatype Slide = Slide(caption: string, image: InlineData)

  /** The two slots and the slides emitted so far. */
  datatype State = State(text: string, img: Option<InlineData>, slides: seq<Slide>)

  const Start: State := State("", None, [])

  // ---------------------------------------------------------------------------
  // Reading the wire shape
  // ---------------------------------------------------------------------------

  /**
    Only a truthy (non-empty) `text` makes a text part; otherwise a present
    `inlineData` makes an image part; anything else is ignored.
  */
  function Classify(w: WirePart): (p: Part)
    ensures p.Text? <==> w.text.Some? && w.text.value != ""
    ensures p.Text? ==> p.s == w.text.value
    ensures p.Image? <==> (w.text.None? || w.text.value == "") && w.inlineData.Some?
    ensures p.Image? ==> p.d == w.inlineData.value
  {
    if w.text.Some? && w.text.value != "" then Text(w.text.value)
    else if w.inlineData.Some? then Image(w.inlineData.value)
    else Other
  }

  /** `candidate.content?.parts ?? []` */
  function PartsOf(c: Candidate): (ws: seq<WirePart>)
    ensures c.content.Some? && c.content.value.parts.Some? ==> ws == c.content.value.parts.value
    ensures c.content.None? || c.content.value.parts.None? ==> ws == []
  {
    match c.content
    case None => []
    case Some(content) => if content.parts.Some? then content.parts.value else []
  }

  function Classified(ws: seq<WirePart>): (ps: seq<Part>)
    ensures |ps| == |ws|
    ensures forall k :: 0 <= k < |ws| ==> ps[k] == Classify(ws[k])
  {
    if ws == [] then [] else Classified(ws[..|ws| - 1]) + [Classify(ws[|ws| - 1])]
  }

  /** The parts of a sequence of candidates, in order. */
  function CandidateParts(cs: seq<Candidate>): (ps: seq<Part>)
  {
    if cs == [] then [] else CandidateParts(cs[..|cs| - 1]) + Classified(PartsOf(cs[|cs| - 1]))
  }

  /** The parts of a sequence of chunks that all carry candidates, in order. */
  function ChunkParts(chunks: seq<Chunk>): (ps: seq<Part>)
    requires forall k :: 0 <= k < |chunks| ==> chunks[k].candidates.Some?
  {
    if chunks == [] then []
    else ChunkParts(chunks[..|chunks| - 1]) + CandidateParts(chunks[|chunks| - 1].candidates.value)
  }

  /** The index of the first chunk without candidates, or the number of chunks if there is none. */
  function FirstBroken(chunks: seq<Chunk>): (n: nat)
    ensures n <= |chunks|
    ensures forall k :: 0 <= k < n ==> chunks[k].candidates.Some?
    ensures n < |chunks| ==> chunks[n].candidates.None?
  {
    if chunks == [] || chunks[0].candidates.None? then 0
    else 1 + FirstBroken(chunks[1..])
  }

  /** The parts the assembler sees before the stream ends or breaks. */
  function Received(chunks: seq<Chunk>): (ps: seq<Part>)
    ensures (forall k :: 0 <= k < |chunks| ==> chunks[k].candidates.Some?) ==> ps == ChunkParts(chunks)
    ensures chunks != [] && chunks[0].candidates.None? ==> ps == []
  {
    var n := FirstBroken(chunks);
    assert (forall k :: 0 <= k < |chunks| ==> chunks[k].candidates.Some?) ==> chunks[..n] == chunks;
    assert n == 0 ==> chunks[..n] == [];
    ChunkParts(chunks[..n])
  }

  // ---------------------------------------------------------------------------
  // The reducer
  // ---------------------------------------------------------------------------

  /** Text is appended to the caption; an image replaces the pending one. */
  function Absorb(st: State, p: Part): (r: State)
    ensures r.slides == st.slides
    ensures st.text <= r.text
    ensures p.Text? ==> r.text[|st.text|..] == p.s && r.img == st.img
    ensures p.Image? ==> r.text == st.text && r.img == Some(p.d)
    ensures p.Other? ==> r == st
  {
    match p
    case Text(s) => st.(text := st.text + s)
    case Image(d) => st.(img := Some(d))
    case Other => st
  }

  /** Both slots filled: emit a slide and empty both slots. */
  predicate Fires(st: State) {
    st.text != "" && st.img.Some?
  }

  /** The check after every part. */
  function Settle(st: State): (r: State)
    ensures !Fires(r)
    ensures Fires(st) ==> r.text == "" && r.img.None? && r.slides == st.slides + [Slide(st.text, st.img.value)]
    ensures !Fires(st) ==> r == st
  {
    if Fires(st) then State("", None, st.slides + [Slide(st.text, st.img.value)]) else st
  }

  /** One part: take it in, then settle. At most one slide is appended, and it has a caption. */
  function Step(st: State, p: Part): (r: State)
    ensures !Fires(r)
  {
    Settle(Absorb(st, p))
  }

  /** The state after the given parts, starting from empty slots. */
  function Reduce(ps: seq<Part>): (r: State)
    ensures !Fires(r)
    ensures |r.slides| <= |ps|
  {
    if ps == [] then Start else Step(Reduce(ps[..|ps| - 1]), ps[|ps| - 1])
  }

  /** The end-of-stream flush: a pending image is shown with whatever text is held. */
  function Flush(st: State): (r: seq<Slide>)
    ensures st.slides <= r
    ensures st.img.Some? <==> |r| == |st.slides| + 1
    ensures st.img.None? ==> r == st.slides
    ensures st.img.Some? ==> r[|st.slides|] == Slide(st.text, st.img.value)
  {
    if st.img.Some? then st.slides + [Slide(st.text, st.img.value)] else st.slides
  }

  /** All slides shown for a stream that ends normally. */
  function Assemble(ps: seq<Part>): (r: seq<Slide>)
    ensures Reduce(ps).slides <= r
    ensures |r| <= |Reduce(ps).slides| + 1
    ensures |r| == |Reduce(ps).slides| + 1 <==> Reduce(ps).img.Some?
    ensures |r| == |Reduce(ps).slides| + 1 ==> r[|r| - 1] == Slide("", Reduce(ps).img.value)
  {
    Flush(Reduce(ps))
  }

  /** Each part appends at most one slide, which has a caption, and then both slots are empty. */
  lemma StepAppendsAtMostOne(st: State, p: Part)
    ensures st.slides <= Step(st, p).slides && |Step(st, p).slides| <= |st.slides| + 1
    ensures |Step(st, p).slides| > |st.slides| ==>
      Step(st, p).slides[|st.slides|].caption != "" && Step(st, p).text == "" && Step(st, p).img.None?
  {
  }

  /** A single candidate contributes exactly its own parts, classified in order. */
  lemma OneCandidateParts(c: Candidate)
    ensures CandidateParts([c]) == Classified(PartsOf(c))
  {
    assert [c][..0] == [];
  }

  /** Candidates that carry no parts contribute no parts. */
  lemma {:induction false} PartlessCandidatesGiveNothing(cs: seq<Candidate>)
    requires forall k :: 0 <= k < |cs| ==> PartsOf(cs[k]) == []
    ensures CandidateParts(cs) == []
    decreases |cs|
  {
    if cs != [] {
      PartlessCandidatesGiveNothing(cs[..|cs| - 1]);
    }
  }

  /** A single chunk contributes exactly the parts of its candidates. */
  lemma OneChunkParts(chunk: Chunk)
    requires chunk.candidates.Some?
    ensures ChunkParts([chunk]) == CandidateParts(chunk.candidates.value)
  {
    assert [chunk][..0] == [];
  }

  /** Chunks whose candidate lists are empty contribute no parts. */
  lemma {:induction false} EmptyChunksGiveNothing(chunks: seq<Chunk>)
    requires forall k :: 0 <= k < |chunks| ==> chunks[k].candidates == Some([])
    ensures ChunkParts(chunks) == []
    decreases |chunks|
  {
    if chunks != [] {
      EmptyChunksGiveNothing(chunks[..|chunks| - 1]);
    }
  }

  lemma ReduceSnoc(ps: seq<Part>, p: Part)
    ensures Reduce(ps + [p]) == Step(Reduce(ps), p)
  {
    assert (ps + [p])[..|ps|] == ps;
  }

  lemma AppendAssoc(a: seq<Part>, b: seq<Part>, c: seq<Part>)
    ensures (a + b) + c == a + (b + c)
  {
  }

  lemma ClassifiedSnoc(ws: seq<WirePart>, k: nat)
    requires k < |ws|
    ensures Classified(ws[..k + 1]) == Classified(ws[..k]) + [Classify(ws[k])]
  {
    assert ws[..k + 1][..k] == ws[..k];
  }

  lemma CandidatePartsSnoc(cs: seq<Candidate>, k: nat)
    requires k < |cs|
    ensures CandidateParts(cs[..k + 1]) == CandidateParts(cs[..k]) + Classified(PartsOf(cs[k]))
  {
    assert cs[..k + 1][..k] == cs[..k];
  }

  lemma ChunkPartsSnoc(chunks: seq<Chunk>, k: nat)
    requires k < |chunks|
    requires forall i :: 0 <= i <= k ==> chunks[i].candidates.Some?
    ensures ChunkParts(chunks[..k + 1]) == ChunkParts(chunks[..k]) + CandidateParts(chunks[k].candidates.value)
  {
    assert chunks[..k + 1][..k] == chunks[..k];
  }

  // ---------------------------------------------------------------------------
  // The imperative loop
  // ---------------------------------------------------------------------------

  /** The body of the innermost loop: take in one part, then emit a slide if both slots are filled. */
  method HandlePart(text: string, img: Option<InlineData>, slideshow: seq<Slide>, part: WirePart)
    returns (text': string, img': Option<InlineData>, slideshow': seq<Slide>)
    ensures State(text', img', slideshow') == Step(State(text, img, slideshow), Classify(part))
  {
    text', img', slideshow' := text, img, slideshow;
    if part.text.Some? && part.text.value != "" {
      text' := text' + part.text.value;
    } else if part.inlineData.Some? {
      img' := part.inlineData;
    }
    if text' != "" && img'.Some? {
      slideshow' := slideshow' + [Slide(text', img'.value)];
      text' := "";
      img' := None;
    }
  }

  /** The innermost loop, over the parts of one candidate. */
  method HandleParts(text: string, img: Option<InlineData>, slideshow: seq<Slide>, parts: seq<WirePart>, ghost seen: seq<Part>)
    returns (text': string, img': Option<InlineData>, slideshow': seq<Slide>)
    requires State(text, img, slideshow) == Reduce(seen)
    ensures State(text', img', slideshow') == Reduce(seen + Classified(parts))
  {
    text', img', slideshow' := text, img, slideshow;
    var k := 0;
    assert Classified(parts[..0]) == [] by { assert parts[..0] == []; }
    assert seen == seen + Classified(parts[..0]);
    while k < |parts|
      invariant k <= |parts|
      invariant State(text', img', slideshow') == Reduce(seen + Classified(parts[..k]))
    {
      var part := parts[k];
      ghost var was := seen + Classified(parts[..k]);
      assert was + [Classify(part)] == seen + Classified(parts[..k + 1]) by {
        ClassifiedSnoc(parts, k);
        AppendAssoc(seen, Classified(parts[..k]), [Classify(part)]);
      }
      ReduceSnoc(was, Classify(part));
      text', img', slideshow' := HandlePart(text', img', slideshow', part);
      k := k + 1;
    }
    assert parts[..k] == parts;
  }

  /**
    The loop of `generate`: returns the slides this call shows, and whether the stream
    broke on a chunk without candidates (then the catch block takes over and
    no final flush happens).
  */
  method Generate(chunks: seq<Chunk>) returns (slideshow: seq<Slide>, failed: bool)
    ensures failed <==> exists k :: 0 <= k < |chunks| && chunks[k].candidates.None?
    ensures !failed ==> slideshow == Assemble(Received(chunks))
    ensures failed ==> slideshow == Reduce(Received(chunks)).slides
  {
    var text: string := "";
    var img: Option<InlineData> := None;
    slideshow := [];
    failed := false;
    ghost var seen: seq<Part> := [];
    var i := 0;
    assert ChunkParts(chunks[..0]) == [] by { assert chunks[..0] == []; }
    while i < |chunks|
      invariant i <= |chunks|
      invariant forall k :: 0 <= k < i ==> chunks[k].candidates.Some?
      invariant seen == ChunkParts(chunks[..i])
      invariant State(text, img, slideshow) == Reduce(seen)
    {
      if chunks[i].candidates.None? {
        // iterating over a missing `candidates` throws
        assert FirstBroken(chunks) == i;
        failed := true;
        return;
      }
      var candidates := chunks[i].candidates.value;
      ghost var beforeChunk := seen;
      var j := 0;
      assert CandidateParts(candidates[..0]) == [] by { assert candidates[..0] == []; }
      assert seen == beforeChunk + CandidateParts(candidates[..0]);
      while j < |candidates|
        invariant j <= |candidates|
        invariant seen == beforeChunk + CandidateParts(candidates[..j])
        invariant State(text, img, slideshow) == Reduce(seen)
      {
        text, img, slideshow := HandleParts(text, img, slideshow, PartsOf(candidates[j]), seen);
        assert seen + Classified(PartsOf(candidates[j])) == beforeChunk + CandidateParts(candidates[..j + 1]) by {
          CandidatePartsSnoc(candidates, j);
          AppendAssoc(beforeChunk, CandidateParts(candidates[..j]), Classified(PartsOf(candidates[j])));
        }
        seen := seen + Classified(PartsOf(candidates[j]));
        j := j + 1;
      }
      assert candidates[..j] == candidates;
      ChunkPartsSnoc(chunks, i);
      i := i + 1;
    }
    assert chunks[..i] == chunks;
    if img.Some? {
      slideshow := slideshow + [Slide(text, img.value)];
      text := "";
    }
  }
}
