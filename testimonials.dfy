/**
 * The testimonial carousel: a wrap-around index over the four testimonials,
 * an autoplay flag that an interval tick consults, and a visibility latch set
 * by the section's intersection observer.
 */
module Testimonials {
  import opened Cyclic

  /** `testimonials.length` */
  const TestimonialCount: int := 4

  /** The three state cells of the section. */
  datatype Carousel = Carousel(index: int, autoPlaying: bool, visible: bool)

  /** What can happen to the section: the autoplay interval fires, a button or dot is pressed, the observer reports. */
  datatype Event =
    | AutoplayTick
    | NextPressed
    | PrevPressed
    | DotPressed(position: int)
    | Observed(isIntersecting: bool)

  predicate InRange(c: Carousel)
  {
    0 <= c.index < TestimonialCount
  }

  /** Dots exist only for the four testimonials. */
  predicate Possible(e: Event)
  {
    e.DotPressed? ==> 0 <= e.position < TestimonialCount
  }

  predicate AllPossible(es: seq<Event>)
  {
    forall k :: 0 <= k < |es| ==> Possible(es[k])
  }

  /** Pressing next, previous or a dot. */
  predicate Manual(e: Event)
  {
    e.NextPressed? || e.PrevPressed? || e.DotPressed?
  }

  /** `isVisible = false`, `currentIndex = 0`, `isAutoPlaying = true` */
  const Initial: Carousel := Carousel(0, true, false)

  /** The effect of one event on the state. */
  function Step(c: Carousel, e: Event): (c': Carousel)
    requires InRange(c) && Possible(e)
    ensures InRange(c')
    ensures c'.visible == (c.visible || (e.Observed? && e.isIntersecting))
    ensures c'.autoPlaying == (c.autoPlaying && !Manual(e))
  {
    match e
    // the interval exists only while autoplay is on
    case AutoplayTick =>
      if c.autoPlaying then c.(index := NextIndex(c.index, TestimonialCount)) else c
    case NextPressed =>
      c.(index := NextIndex(c.index, TestimonialCount), autoPlaying := false)
    case PrevPressed =>
      c.(index := PrevIndex(c.index, TestimonialCount), autoPlaying := false)
    case DotPressed(position) =>
      c.(index := position, autoPlaying := false)
    case Observed(isIntersecting) =>
      if isIntersecting then c.(visible := true) else c
  }

  /** The state after a sequence of events, applied in order. */
  function Run(c: Carousel, es: seq<Event>): (c': Carousel)
    requires InRange(c) && AllPossible(es)
    ensures InRange(c')
    decreases |es|
  {
    if es == [] then c else Run(Step(c, es[0]), es[1..])
  }

  /** An autoplay tick moves the index exactly when autoplay is on. */
  lemma TickMovesOnlyWhileAutoplaying(c: Carousel)
    requires InRange(c)
    ensures Step(c, AutoplayTick).index != c.index <==> c.autoPlaying
    ensures c.autoPlaying ==> Step(c, AutoplayTick).index == NextIndex(c.index, TestimonialCount)
  {
  }

  /** Once autoplay is off, no sequence of events turns it back on. */
  lemma {:induction false} AutoplayNeverResumes(c: Carousel, es: seq<Event>)
    requires InRange(c) && AllPossible(es)
    requires !c.autoPlaying
    ensures !Run(c, es).autoPlaying
    decreases |es|
  {
    if es != [] {
      AutoplayNeverResumes(Step(c, es[0]), es[1..]);
    }
  }

  /** A single manual action anywhere in a run switches autoplay off for good. */
  lemma {:induction false} ManualActionStopsAutoplay(c: Carousel, es: seq<Event>, k: nat)
    requires InRange(c) && AllPossible(es)
    requires k < |es| && Manual(es[k])
    ensures !Run(c, es).autoPlaying
    decreases |es|
  {
    if k == 0 {
      AutoplayNeverResumes(Step(c, es[0]), es[1..]);
    } else {
      ManualActionStopsAutoplay(Step(c, es[0]), es[1..], k - 1);
    }
  }

  /** With autoplay off, any number of ticks leaves the state as it is. */
  lemma {:induction false} TicksAreIdleWithoutAutoplay(c: Carousel, es: seq<Event>)
    requires InRange(c) && AllPossible(es)
    requires !c.autoPlaying
    requires forall k :: 0 <= k < |es| ==> es[k] == AutoplayTick
    ensures Run(c, es) == c
    decreases |es|
  {
    if es != [] {
      TicksAreIdleWithoutAutoplay(Step(c, es[0]), es[1..]);
    }
  }

  /** The visibility flag is a one-way latch. */
  lemma {:induction false} VisibilityLatches(c: Carousel, es: seq<Event>)
    requires InRange(c) && AllPossible(es)
    requires c.visible
    ensures Run(c, es).visible
    decreases |es|
  {
    if es != [] {
      VisibilityLatches(Step(c, es[0]), es[1..]);
    }
  }

  /** Previous undoes next, and next undoes previous, on the index. */
  lemma PrevInvertsNext(c: Carousel)
    requires InRange(c)
    ensures Step(Step(c, NextPressed), PrevPressed).index == c.index
    ensures Step(Step(c, PrevPressed), NextPressed).index == c.index
  {
    PrevUndoesNext(c.index, TestimonialCount);
    NextUndoesPrev(c.index, TestimonialCount);
  }

  /** Four autoplay ticks bring the carousel back to the testimonial it started on. */
  lemma AutoplayCycles(c: Carousel)
    requires InRange(c) && c.autoPlaying
    ensures Run(c, [AutoplayTick, AutoplayTick, AutoplayTick, AutoplayTick]) == c
  {
    var ticks := [AutoplayTick, AutoplayTick, AutoplayTick, AutoplayTick];
    assert ticks[1..][1..][1..][1..] == [];
  }

  /** The section's state cells; each handler is one `Step`. */
  class TestimonialsSection {
    var currentIndex: int
    var isAutoPlaying: bool
    var isVisible: bool

    function State(): Carousel
      reads this
    {
      Carousel(currentIndex, isAutoPlaying, isVisible)
    }

    ghost predicate Valid()
      reads this
    {
      InRange(State())
    }

    constructor ()
      ensures Valid() && State() == Initial
    {
      currentIndex, isAutoPlaying, isVisible := 0, true, false;
    }

    /** The 5-second interval callback. */
    method Tick()
      requires Valid()
      modifies this
      ensures Valid() && State() == Step(old(State()), AutoplayTick)
    {
      if isAutoPlaying {
        currentIndex := NextIndex(currentIndex, TestimonialCount);
      }
    }

    /** `nextTestimonial` */
    method NextTestimonial()
      requires Valid()
      modifies this
      ensures Valid() && State() == Step(old(State()), NextPressed)
    {
      currentIndex := NextIndex(currentIndex, TestimonialCount);
      isAutoPlaying := false;
    }

    /** `prevTestimonial` */
    method PrevTestimonial()
      requires Valid()
      modifies this
      ensures Valid() && State() == Step(old(State()), PrevPressed)
    {
      currentIndex := PrevIndex(currentIndex, TestimonialCount);
      isAutoPlaying := false;
    }

    /** The click handler of dot `position`. */
    method SelectDot(position: int)
      requires Valid() && 0 <= position < TestimonialCount
      modifies this
      ensures Valid() && State() == Step(old(State()), DotPressed(position))
      ensures currentIndex == position
    {
      currentIndex := position;
      isAutoPlaying := false;
    }

    /** The intersection observer callback. */
    method Observe(isIntersecting: bool)
      requires Valid()
      modifies this
      ensures Valid() && State() == Step(old(State()), Observed(isIntersecting))
    {
      if isIntersecting {
        isVisible := true;
      }
    }

    /** The dot row: only the current testimonial's dot is highlighted. */
    function DotMarks(): (d: seq<bool>)
      reads this
      requires Valid()
      ensures |d| == TestimonialCount
      ensures CountMarked(d) == 1
      ensures d[currentIndex]
    {
      ExactlyOneDotMarked(currentIndex, TestimonialCount);
      Dots(currentIndex, TestimonialCount)
    }
  }
}
