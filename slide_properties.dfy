/**
  What the slide assembler of `generate` guarantees, stated about the fold
  `Reduce` and the final `Assemble` that the loop is proved against.
*/
module SlideProperties {

  import opened Options
  import opened SlideAssembly

  // ---------------------------------------------------------------------------
  // Reference definitions, independent of the reducer
  // ---------------------------------------------------------------------------

  function PartText(p: Part): string {
    if p.Text? then p.s else ""
  }

  /** The concatenation of all text parts. */
  function TextOf(ps: seq<Part>): string {
    if ps == [] then "" else TextOf(ps[..|ps| - 1]) + PartText(ps[|ps| - 1])
  }

  /** The most recent image part, if any. */
  function LastImage(ps: seq<Part>): Option<InlineData> {
    if ps == [] then None
    else if ps[|ps| - 1].Image? then Some(ps[|ps| - 1].d)
    else LastImage(ps[..|ps| - 1])
  }

  function ImageCount(ps: seq<Part>): nat {
    if ps == [] then 0
    else ImageCount(ps[..|ps| - 1]) + (if ps[|ps| - 1].Image? then 1 else 0)
  }

  /** The concatenation of the captions of the slides. */
  function Captions(slides: seq<Slide>): string {
    if slides == [] then "" else Captions(slides[..|slides| - 1]) + slides[|slides| - 1].caption
  }

  function Flatten(segs: seq<seq<Part>>): seq<Part> {
    if segs == [] then [] else Flatten(segs[..|segs| - 1]) + segs[|segs| - 1]
  }

  /** A run of parts that holds some text and some image. */
  predicate Closes(seg: seq<Part>) {
    TextOf(seg) != "" && LastImage(seg).Some?
  }

  /** A run that holds text and an image, and no shorter prefix of which does. */
  predicate FirstCloser(seg: seq<Part>) {
    Closes(seg) && forall j :: 0 <= j < |seg| ==> !Closes(seg[..j])
  }

  /** A run no prefix of which holds both text and an image. */
  predicate NeverCloses(seg: seq<Part>) {
    forall j :: 0 <= j <= |seg| ==> !Closes(seg[..j])
  }

  /** The slide a closing run stands for: all its text, with its most recent image. */
  function SlideOf(seg: seq<Part>): Slide
    requires Closes(seg)
  {
    Slide(TextOf(seg), LastImage(seg).value)
  }

  /** The parts since the last emitted slide. */
  function Pending(ps: seq<Part>): seq<Part> {
    if ps == [] then []
    else if Fires(Absorb(Reduce(ps[..|ps| - 1]), ps[|ps| - 1])) then []
    else Pending(ps[..|ps| - 1]) + [ps[|ps| - 1]]
  }

  /** The runs of parts that each produced one mid-stream slide. */
  function Segments(ps: seq<Part>): seq<seq<Part>> {
    if ps == [] then []
    else if Fires(Absorb(Reduce(ps[..|ps| - 1]), ps[|ps| - 1]))
    then Segments(ps[..|ps| - 1]) + [Pending(ps[..|ps| - 1]) + [ps[|ps| - 1]]]
    else Segments(ps[..|ps| - 1])
  }

  // ---------------------------------------------------------------------------
  // Small facts about the reference definitions
  // ---------------------------------------------------------------------------

  lemma TextOfSnoc(ps: seq<Part>, p: Part)
    ensures TextOf(ps + [p]) == TextOf(ps) + PartText(p)
  {
    assert (ps + [p])[..|ps|] == ps;
  }

  lemma LastImageSnoc(ps: seq<Part>, p: Part)
    ensures LastImage(ps + [p]) == if p.Image? then Some(p.d) else LastImage(ps)
  {
    assert (ps + [p])[..|ps|] == ps;
  }

  lemma FlattenSnoc(segs: seq<seq<Part>>, seg: seq<Part>)
    ensures Flatten(segs + [seg]) == Flatten(segs) + seg
  {
    assert (segs + [seg])[..|segs|] == segs;
  }

  lemma {:induction false} FlattenCons(seg: seq<Part>, segs: seq<seq<Part>>)
    ensures Flatten([seg] + segs) == seg + Flatten(segs)
    decreases |segs|
  {
    if segs == [] {
      assert [seg] + segs == [] + [seg];
      FlattenSnoc([], seg);
    } else {
      var init, last := segs[..|segs| - 1], segs[|segs| - 1];
      assert [seg] + segs == ([seg] + init) + [last];
      assert segs == init + [last];
      FlattenCons(seg, init);
      FlattenSnoc([seg] + init, last);
      FlattenSnoc(init, last);
    }
  }

  // ---------------------------------------------------------------------------
  // The two slots
  // ---------------------------------------------------------------------------

  /** After every part the caption and the image are never both held. */
  lemma NeverBothFilled(ps: seq<Part>)
    ensures forall n :: 0 <= n <= |ps| ==> !(Reduce(ps[..n]).text != "" && Reduce(ps[..n]).img.Some?)
  {
    forall n | 0 <= n <= |ps|
      ensures !Fires(Reduce(ps[..n]))
    {
      if n == 0 {
        assert ps[..n] == [];
      }
    }
  }

  /** An ignored part (no truthy text, no inline data) leaves the state as it was. */
  lemma IgnoredPartChangesNothing(ps: seq<Part>, w: WirePart)
    requires w.text.None? || w.text.value == ""
    requires w.inlineData.None?
    ensures Reduce(ps + [Classify(w)]) == Reduce(ps)
  {
    ReduceSnoc(ps, Classify(w));
    if ps != [] {
      assert !Fires(Reduce(ps));
    }
  }

  /** A part with truthy text is a text part even when it also carries an image. */
  lemma TruthyTextWins(ps: seq<Part>, s: string, d: InlineData)
    requires s != ""
    ensures Reduce(ps + [Classify(WirePart(Some(s), Some(d)))]) == Reduce(ps + [Text(s)])
    ensures Reduce(ps + [Text(s)]).img == None || Reduce(ps + [Text(s)]).img == Reduce(ps).img
  {
    ReduceSnoc(ps, Text(s));
  }

  // ---------------------------------------------------------------------------
  // Mid-stream slides and the final flush
  // ---------------------------------------------------------------------------

  /** Every slide emitted before the end of the stream has a non-empty caption. */
  lemma {:induction false} MidStreamCaptionsNonEmpty(ps: seq<Part>)
    ensures forall k :: 0 <= k < |Reduce(ps).slides| ==> Reduce(ps).slides[k].caption != ""
    decreases |ps|
  {
    if ps != [] {
      MidStreamCaptionsNonEmpty(ps[..|ps| - 1]);
    }
  }

  /**
    The end-of-stream flush adds at most one slide, exactly when an image is
    pending, and that slide's caption is always empty.
  */
  lemma FinalFlushHasEmptyCaption(ps: seq<Part>)
    ensures var st := Reduce(ps);
      && (st.img.None? ==> Assemble(ps) == st.slides)
      && (st.img.Some? ==> Assemble(ps) == st.slides + [Slide("", st.img.value)])
  {
    NeverBothFilled(ps);
    assert ps[..|ps|] == ps;
  }

  /** No more slides than image parts. */
  lemma {:induction false} SlidesBoundedByImages(ps: seq<Part>)
    ensures |Reduce(ps).slides| + (if Reduce(ps).img.Some? then 1 else 0) <= ImageCount(ps)
    ensures |Assemble(ps)| <= ImageCount(ps)
    decreases |ps|
  {
    if ps != [] {
      SlidesBoundedByImages(ps[..|ps| - 1]);
    }
  }

  /**
    The captions shown, followed by the text still held, are all the text of
    the stream: the captions are a prefix of it, and only the held text is lost.
  */
  lemma {:induction false} CaptionsThenHeldText(ps: seq<Part>)
    ensures Captions(Reduce(ps).slides) + Reduce(ps).text == TextOf(ps)
    ensures Captions(Assemble(ps)) + Reduce(ps).text == TextOf(ps)
    decreases |ps|
  {
    if ps != [] {
      var init, p := ps[..|ps| - 1], ps[|ps| - 1];
      CaptionsThenHeldText(init);
      CaptionsStep(Reduce(init), p);
    }
    var st := Reduce(ps);
    FinalFlushHasEmptyCaption(ps);
    if st.img.Some? {
      var sl := st.slides + [Slide("", st.img.value)];
      assert sl[..|sl| - 1] == st.slides;
    }
  }

  /** One part moves text from the input into the held text or into a new caption, and loses none. */
  lemma CaptionsStep(st: State, p: Part)
    ensures Captions(Step(st, p).slides) + Step(st, p).text == Captions(st.slides) + st.text + PartText(p)
  {
    var a := Absorb(st, p);
    assert a.slides == st.slides && a.text == st.text + PartText(p);
    if Fires(a) {
      var sl := a.slides + [Slide(a.text, a.img.value)];
      assert sl[..|sl| - 1] == a.slides;
    }
  }

  // ---------------------------------------------------------------------------
  // The pairing rule
  // ---------------------------------------------------------------------------

  /**
    `segs` and `pend` account for the state `st` after the parts `ps`: the
    parts split into runs, one per mid-stream slide, followed by the pending
    parts.  Each run is the first stretch since the previous slide that holds
    both text and an image, and its slide carries all of its text and its most
    recent image.  The pending parts never hold both, and the two slots are
    exactly their text and their most recent image.
  */
  predicate Explains(st: State, ps: seq<Part>, segs: seq<seq<Part>>, pend: seq<Part>) {
    && Flatten(segs) + pend == ps
    && |segs| == |st.slides|
    && (forall k :: 0 <= k < |segs| ==> FirstCloser(segs[k]) && st.slides[k] == SlideOf(segs[k]))
    && NeverCloses(pend)
    && st.text == TextOf(pend)
    && st.img == LastImage(pend)
  }

  /** The pending run extended by one part: its prefixes up to the old length still never close. */
  lemma ExtendPending(pend: seq<Part>, p: Part)
    requires NeverCloses(pend)
    ensures forall j :: 0 <= j <= |pend| ==> !Closes((pend + [p])[..j])
    ensures TextOf(pend + [p]) == TextOf(pend) + PartText(p)
    ensures LastImage(pend + [p]) == if p.Image? then Some(p.d) else LastImage(pend)
  {
    forall j | 0 <= j <= |pend|
      ensures !Closes((pend + [p])[..j])
    {
      assert (pend + [p])[..j] == pend[..j];
    }
    TextOfSnoc(pend, p);
    LastImageSnoc(pend, p);
  }

  /** Appending a first-closing run and its slide keeps runs and slides in step. */
  lemma RunsAppend(segs: seq<seq<Part>>, slides: seq<Slide>, run: seq<Part>)
    requires |segs| == |slides|
    requires forall k :: 0 <= k < |segs| ==> FirstCloser(segs[k]) && slides[k] == SlideOf(segs[k])
    requires FirstCloser(run)
    ensures forall k :: 0 <= k < |segs| + 1 ==>
      FirstCloser((segs + [run])[k]) && (slides + [SlideOf(run)])[k] == SlideOf((segs + [run])[k])
  {
  }

  /** A part that fills both slots closes the pending run into a new slide. */
  lemma ExplainsFire(st: State, ps: seq<Part>, segs: seq<seq<Part>>, pend: seq<Part>, p: Part)
    requires Explains(st, ps, segs, pend)
    requires Fires(Absorb(st, p))
    ensures Explains(Step(st, p), ps + [p], segs + [pend + [p]], [])
  {
    var run, st' := pend + [p], Step(st, p);
    assert FirstCloser(run) && st'.slides == st.slides + [SlideOf(run)] by {
      var a := Absorb(st, p);
      ExtendPending(pend, p);
      assert TextOf(run) == a.text && LastImage(run) == a.img;
      NowCloses(pend, p);
    }
    assert Flatten(segs + [run]) == ps + [p] by {
      FlattenSnoc(segs, run);
    }
    assert forall k :: 0 <= k < |segs + [run]| ==>
      FirstCloser((segs + [run])[k]) && st'.slides[k] == SlideOf((segs + [run])[k]) by {
      RunsAppend(segs, st.slides, run);
    }
    ExplainsEmptyPending(st', ps + [p], segs + [run]);
  }

  /** With nothing pending and both slots empty, the runs alone explain the state. */
  lemma ExplainsEmptyPending(st: State, ps: seq<Part>, segs: seq<seq<Part>>)
    requires Flatten(segs) == ps
    requires |segs| == |st.slides|
    requires forall k :: 0 <= k < |segs| ==> FirstCloser(segs[k]) && st.slides[k] == SlideOf(segs[k])
    requires st.text == "" && st.img == None
    ensures Explains(st, ps, segs, [])
  {
    var none: seq<Part> := [];
    assert none[..0] == none;
  }

  /** A pending run that a part closes becomes a first-closing run. */
  lemma NowCloses(pend: seq<Part>, p: Part)
    requires NeverCloses(pend)
    requires Closes(pend + [p])
    ensures FirstCloser(pend + [p])
  {
    var run := pend + [p];
    forall j | 0 <= j < |run|
      ensures !Closes(run[..j])
    {
      assert run[..j] == pend[..j];
    }
  }

  /** A part that leaves a slot empty joins the pending run. */
  lemma ExplainsHold(st: State, ps: seq<Part>, segs: seq<seq<Part>>, pend: seq<Part>, p: Part)
    requires Explains(st, ps, segs, pend)
    requires !Fires(Absorb(st, p))
    ensures Explains(Step(st, p), ps + [p], segs, pend + [p])
  {
    var run, st' := pend + [p], Step(st, p);
    assert st'.slides == st.slides && st'.text == TextOf(run) && st'.img == LastImage(run) by {
      ExtendPending(pend, p);
      assert st' == Absorb(st, p);
    }
    assert NeverCloses(run) by {
      StillNeverCloses(pend, p);
    }
    assert Flatten(segs) + run == ps + [p];
  }

  /** A pending run extended by a part that does not close it still never closes. */
  lemma StillNeverCloses(pend: seq<Part>, p: Part)
    requires NeverCloses(pend)
    requires !Closes(pend + [p])
    ensures NeverCloses(pend + [p])
  {
    var run := pend + [p];
    forall j | 0 <= j <= |run|
      ensures !Closes(run[..j])
    {
      if j == |run| {
        assert run[..j] == run;
      } else {
        assert run[..j] == pend[..j];
      }
    }
  }

  /** The runs and pending parts the reducer actually produces explain its state. */
  lemma {:induction false} SlidesAreSegments(ps: seq<Part>)
    ensures Explains(Reduce(ps), ps, Segments(ps), Pending(ps))
    decreases |ps|
  {
    if ps == [] {
      assert Pending(ps)[..0] == [];
      return;
    }
    var init, p := ps[..|ps| - 1], ps[|ps| - 1];
    assert ps == init + [p];
    SlidesAreSegments(init);
    if Fires(Absorb(Reduce(init), p)) {
      ExplainsFire(Reduce(init), init, Segments(init), Pending(init), p);
    } else {
      ExplainsHold(Reduce(init), init, Segments(init), Pending(init), p);
    }
  }

  /**
    A split of the parts into first-closing runs and a pending tail that never
    closes is unique: the pairing rule fixes the runs.
  */
  lemma {:induction false} SegmentationUnique(segs1: seq<seq<Part>>, pend1: seq<Part>, segs2: seq<seq<Part>>, pend2: seq<Part>)
    requires Flatten(segs1) + pend1 == Flatten(segs2) + pend2
    requires forall k :: 0 <= k < |segs1| ==> FirstCloser(segs1[k])
    requires forall k :: 0 <= k < |segs2| ==> FirstCloser(segs2[k])
    requires NeverCloses(pend1) && NeverCloses(pend2)
    ensures segs1 == segs2 && pend1 == pend2
    decreases |segs1|
  {
    if segs1 == [] {
      assert Flatten(segs1) == [];
      NoRunInNeverClosing(segs2, pend2, pend1);
      assert pend1 == Flatten(segs1) + pend1 == Flatten(segs2) + pend2 == pend2;
    } else if segs2 == [] {
      NoRunInNeverClosing(segs1, pend1, pend2);
      assert false;
    } else {
      var r1 := FirstRunThenRest(segs1, pend1);
      var r2 := FirstRunThenRest(segs2, pend2);
      SameFirstRun(segs1[0], r1, segs2[0], r2);
      assert segs1 == [segs1[0]] + segs1[1..] && segs2 == [segs2[0]] + segs2[1..];
      SegmentationUnique(segs1[1..], pend1, segs2[1..], pend2);
    }
  }

  /** Parts no prefix of which closes contain no closing run. */
  lemma NoRunInNeverClosing(segs: seq<seq<Part>>, pend: seq<Part>, tail: seq<Part>)
    requires Flatten(segs) + pend == tail
    requires forall k :: 0 <= k < |segs| ==> FirstCloser(segs[k])
    requires NeverCloses(tail)
    ensures segs == []
  {
    if segs != [] {
      SplitStartsWithRun(segs, pend);
      assert false;
    }
  }

  /** What follows the first run of a split. */
  lemma FirstRunThenRest(segs: seq<seq<Part>>, pend: seq<Part>) returns (rest: seq<Part>)
    requires segs != []
    ensures rest == Flatten(segs[1..]) + pend
    ensures Flatten(segs) + pend == segs[0] + rest
  {
    assert segs == [segs[0]] + segs[1..];
    FlattenCons(segs[0], segs[1..]);
    rest := Flatten(segs[1..]) + pend;
  }

  /** Two splits of the same parts agree on the shorter of their first pieces. */
  lemma CommonPrefix(x1: seq<Part>, r1: seq<Part>, x2: seq<Part>, r2: seq<Part>)
    requires x1 + r1 == x2 + r2
    ensures |x1| <= |x2| ==> x2[..|x1|] == x1
    ensures |x2| <= |x1| ==> x1[..|x2|] == x2
  {
    if |x1| <= |x2| {
      assert x2[..|x1|] == (x2 + r2)[..|x1|] == (x1 + r1)[..|x1|] == x1;
    }
    if |x2| <= |x1| {
      assert x1[..|x2|] == (x1 + r1)[..|x2|] == (x2 + r2)[..|x2|] == x2;
    }
  }

  /** Two first-closing runs that start the same parts are the same run. */
  lemma SameFirstRun(x1: seq<Part>, r1: seq<Part>, x2: seq<Part>, r2: seq<Part>)
    requires x1 + r1 == x2 + r2
    requires FirstCloser(x1) && FirstCloser(x2)
    ensures x1 == x2 && r1 == r2
  {
    CommonPrefix(x1, r1, x2, r2);
    assert |x1| == |x2|;
    assert x1 == (x1 + r1)[..|x1|] == x2;
    assert r1 == (x1 + r1)[|x1|..] == r2;
  }

  /** A split that starts with a closing run has a closing prefix. */
  lemma SplitStartsWithRun(segs: seq<seq<Part>>, pend: seq<Part>)
    requires segs != []
    requires FirstCloser(segs[0])
    ensures |segs[0]| <= |Flatten(segs) + pend|
    ensures Closes((Flatten(segs) + pend)[..|segs[0]|])
  {
    var rest := FirstRunThenRest(segs, pend);
    assert (segs[0] + rest)[..|segs[0]|] == segs[0];
  }

  /**
    The pairing rule, stated without the reducer: whenever the parts split
    into first-closing runs followed by a tail that never closes, the
    mid-stream slides are the runs' slides, in order, and the held caption and
    image are the tail's text and most recent image.
  */
  lemma PairingRule(ps: seq<Part>, segs: seq<seq<Part>>, tail: seq<Part>)
    requires Flatten(segs) + tail == ps
    requires forall k :: 0 <= k < |segs| ==> FirstCloser(segs[k])
    requires NeverCloses(tail)
    ensures |Reduce(ps).slides| == |segs|
    ensures forall k :: 0 <= k < |segs| ==> Closes(segs[k]) && Reduce(ps).slides[k] == SlideOf(segs[k])
    ensures Reduce(ps).text == TextOf(tail) && Reduce(ps).img == LastImage(tail)
  {
    SlidesAreSegments(ps);
    SegmentationUnique(segs, tail, Segments(ps), Pending(ps));
  }

  /** Text held when the stream ends arrived after the last image part. */
  lemma HeldTextFollowsEveryImage(ps: seq<Part>)
    requires Reduce(ps).text != ""
    ensures Reduce(ps).img.None?
    ensures exists n :: 0 <= n <= |ps| && TextOf(ps[n..]) == Reduce(ps).text && ImageCount(ps[n..]) == 0
  {
    var n := PendingIsSuffix(ps);
    NoImageCounted(ps[n..]);
  }

  /** The pending parts are the suffix of the stream from the returned index on, and fill the slots. */
  lemma PendingIsSuffix(ps: seq<Part>) returns (n: nat)
    ensures n <= |ps| && ps[n..] == Pending(ps)
    ensures Reduce(ps).text == TextOf(ps[n..]) && Reduce(ps).img == LastImage(ps[n..])
  {
    var pend := Pending(ps);
    SlidesAreSegments(ps);
    n := |ps| - |pend|;
    assert ps == Flatten(Segments(ps)) + pend;
    assert ps[n..] == pend;
  }

  /** A run without a most recent image holds no image part at all. */
  lemma {:induction false} NoImageCounted(ps: seq<Part>)
    requires LastImage(ps).None?
    ensures ImageCount(ps) == 0
    decreases |ps|
  {
    if ps != [] {
      NoImageCounted(ps[..|ps| - 1]);
    }
  }

  // ---------------------------------------------------------------------------
  // Worked examples
  // ---------------------------------------------------------------------------

  /** An empty stream shows no slide. */
  lemma EmptyStreamShowsNothing()
    ensures Assemble([]) == []
  {
  }

  /** Text, image, text, image gives two slides in arrival order. */
  lemma AlternatingExample(x: InlineData, y: InlineData)
    ensures Assemble([Text("a"), Image(x), Text("b"), Image(y)]) == [Slide("a", x), Slide("b", y)]
  {
    ReduceSnoc([], Text("a"));
    assert [] + [Text("a")] == [Text("a")];
    assert Reduce([Text("a")]) == State("a", None, []);
    ReduceSnoc([Text("a")], Image(x));
    assert [Text("a")] + [Image(x)] == [Text("a"), Image(x)];
    assert Reduce([Text("a"), Image(x)]) == State("", None, [Slide("a", x)]);
    ReduceSnoc([Text("a"), Image(x)], Text("b"));
    assert [Text("a"), Image(x)] + [Text("b")] == [Text("a"), Image(x), Text("b")];
    assert Reduce([Text("a"), Image(x), Text("b")]) == State("b", None, [Slide("a", x)]);
    ReduceSnoc([Text("a"), Image(x), Text("b")], Image(y));
    assert [Text("a"), Image(x), Text("b")] + [Image(y)] == [Text("a"), Image(x), Text("b"), Image(y)];
  }

  /** An image arriving before any text waits for the text. */
  lemma ImageFirstExample(x: InlineData)
    ensures Assemble([Image(x), Text("a")]) == [Slide("a", x)]
  {
    ReduceSnoc([], Image(x));
    assert [] + [Image(x)] == [Image(x)];
    assert Reduce([Image(x)]) == State("", Some(x), []);
    ReduceSnoc([Image(x)], Text("a"));
    assert [Image(x)] + [Text("a")] == [Image(x), Text("a")];
    assert "" + "a" == "a";
    assert Reduce([Image(x), Text("a")]) == State("", None, [Slide("a", x)]);
  }

  /** An unpaired image is overwritten by the next one. */
  lemma LastImageWinsExample(x: InlineData, y: InlineData)
    ensures Assemble([Image(x), Image(y), Text("a")]) == [Slide("a", y)]
  {
    ReduceSnoc([], Image(x));
    assert [] + [Image(x)] == [Image(x)];
    assert Reduce([Image(x)]) == State("", Some(x), []);
    ReduceSnoc([Image(x)], Image(y));
    assert [Image(x)] + [Image(y)] == [Image(x), Image(y)];
    assert Reduce([Image(x), Image(y)]) == State("", Some(y), []);
    ReduceSnoc([Image(x), Image(y)], Text("a"));
    assert [Image(x), Image(y)] + [Text("a")] == [Image(x), Image(y), Text("a")];
    assert "" + "a" == "a";
    assert Reduce([Image(x), Image(y), Text("a")]) == State("", None, [Slide("a", y)]);
  }

  /** Text that arrives after the last slide and no image follows is dropped. */
  lemma TrailingTextExample(x: InlineData)
    ensures Assemble([Image(x), Text("a"), Text("b")]) == [Slide("a", x)]
  {
    assert Reduce([Image(x)]) == State("", Some(x), []) by {
      ReduceSnoc([], Image(x));
      assert [] + [Image(x)] == [Image(x)];
    }
    assert Reduce([Image(x), Text("a")]) == State("", None, [Slide("a", x)]) by {
      ReduceSnoc([Image(x)], Text("a"));
      assert [Image(x)] + [Text("a")] == [Image(x), Text("a")];
      assert "" + "a" == "a";
    }
    ReduceSnoc([Image(x), Text("a")], Text("b"));
    assert [Image(x), Text("a")] + [Text("b")] == [Image(x), Text("a"), Text("b")];
  }

  /** An image that arrives after the last slide is shown with an empty caption. */
  lemma TrailingImageExample(x: InlineData, y: InlineData)
    ensures Assemble([Text("a"), Image(x), Image(y)]) == [Slide("a", x), Slide("", y)]
  {
    assert Reduce([Text("a")]) == State("a", None, []) by {
      ReduceSnoc([], Text("a"));
      assert [] + [Text("a")] == [Text("a")];
    }
    assert Reduce([Text("a"), Image(x)]) == State("", None, [Slide("a", x)]) by {
      ReduceSnoc([Text("a")], Image(x));
      assert [Text("a")] + [Image(x)] == [Text("a"), Image(x)];
    }
    ReduceSnoc([Text("a"), Image(x)], Image(y));
    assert [Text("a"), Image(x)] + [Image(y)] == [Text("a"), Image(x), Image(y)];
  }
}
