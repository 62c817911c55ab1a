/**
 * The featured-projects section: each project card owns an image carousel,
 * and the stack of cards is driven by a per-card target scale, a scroll
 * range and an accent colour computed from the card's position.
 */
module Projects {
  import opened Cyclic

  /** The image paths of each project, in the order of the project list. */
  const ProjectImages: seq<seq<string>> := [
    ["/projects/kasha-1.png", "/projects/kasha-2.png", "/projects/kasha-3.png"],
    ["/projects/astemari-1.png", "/projects/astemari-2.png"],
    ["/projects/gebeta-1.png", "/projects/gebeta-2.png"],
    ["/projects/onmyway-1.png"],
    ["/projects/portfolio-1.png", "/projects/portfolio-2.png"]
  ]

  /** `projects.length` */
  const ProjectCount: nat := |ProjectImages|

  /** Shown instead of an image whose path is empty. */
  const Placeholder: string := "/placeholder.svg"

  /** The carousel of one project card; `currentIndex` is its only state. */
  class ImageCarousel {
    const images: seq<string>
    var currentIndex: int

    ghost predicate Valid()
      reads this
    {
      0 <= currentIndex < |images|
    }

    constructor (images: seq<string>)
      requires |images| > 0
      ensures Valid()
      ensures this.images == images && currentIndex == 0
    {
      this.images := images;
      currentIndex := 0;
    }

    /** The ">" button. */
    method HandleNext()
      requires Valid()
      modifies this
      ensures Valid()
      ensures currentIndex == NextIndex(old(currentIndex), |images|)
    {
      currentIndex := NextIndex(currentIndex, |images|);
    }

    /** The "<" button. */
    method HandlePrev()
      requires Valid()
      modifies this
      ensures Valid()
      ensures currentIndex == PrevIndex(old(currentIndex), |images|)
    {
      currentIndex := PrevIndex(currentIndex, |images|);
    }

    /** `images[currentIndex] || "/placeholder.svg"`: an empty path falls back to the placeholder. */
    function CurrentImage(): (src: string)
      reads this
      requires Valid()
      ensures src != ""
      ensures images[currentIndex] != "" ==> src == images[currentIndex]
      ensures images[currentIndex] == "" ==> src == Placeholder
    {
      if images[currentIndex] != "" then images[currentIndex] else Placeholder
    }

    /** The dot row under the image. */
    function DotMarks(): (d: seq<bool>)
      reads this
      requires Valid()
      ensures |d| == |images|
      ensures CountMarked(d) == 1
      ensures d[currentIndex]
    {
      ExactlyOneDotMarked(currentIndex, |images|);
      Dots(currentIndex, |images|)
    }
  }

  /** Every project supplies at least one image, so every carousel can be built. */
  lemma EveryProjectHasImages()
    ensures ProjectCount == 5
    ensures forall p :: 0 <= p < ProjectCount ==> |ProjectImages[p]| > 0
  {
  }

  /** `1 - (projects.length - index) * 0.05`: the scale a card shrinks to when stacked. */
  function TargetScale(count: nat, index: nat): (s: real)
    requires index < count
    ensures s < 1.0
  {
    1.0 - (count - index) as real * 0.05
  }

  /** Later cards shrink less: the target scale strictly increases with the index. */
  lemma TargetScaleIncreasing(count: nat, i: nat, j: nat)
    requires i < j < count
    ensures TargetScale(count, i) < TargetScale(count, j)
  {
  }

  /** With the five projects, every target scale lies in [0.75, 0.95]. */
  lemma TargetScaleBounds(index: nat)
    requires index < ProjectCount
    ensures 0.75 <= TargetScale(ProjectCount, index) <= 0.95
  {
  }

  /** `[index * 0.25, 1]`: the part of the scroll progress over which a card shrinks. */
  function CardRange(index: nat): (range: (real, real))
    ensures range.1 == 1.0
    ensures range.0 <= range.1 <==> index <= 4
  {
    (index as real * 0.25, 1.0)
  }

  /** Range starts never move backwards as the index grows. */
  lemma RangeStartNonDecreasing(i: nat, j: nat)
    requires i <= j
    ensures CardRange(i).0 <= CardRange(j).0
  {
  }

  /** Every card of the project list gets a well-formed range. */
  lemma RangesFitProjects()
    ensures forall i :: 0 <= i < ProjectCount ==> CardRange(i).0 <= CardRange(i).1
  {
  }

  const Cyan: string := "#0bb3d9"
  const Green: string := "#16f28b"

  /** `index % 2 === 0 ? "#0bb3d9" : "#16f28b"` */
  function AccentColour(index: nat): (c: string)
    ensures c == Cyan || c == Green
  {
    if index % 2 == 0 then Cyan else Green
  }

  /** Even cards are cyan and odd cards green: neighbours differ, and the colours repeat with period two. */
  lemma AccentAlternates(index: nat)
    ensures AccentColour(0) == Cyan
    ensures AccentColour(2 * index) == Cyan
    ensures AccentColour(2 * index + 1) == Green
    ensures AccentColour(index) != AccentColour(index + 1)
    ensures AccentColour(index + 2) == AccentColour(index)
  {
  }
}
