# Portfolio site component logic in Dafny

This project models the small stateful pieces of the portfolio site's React
components. It leaves out rendering and states their behaviour as Dafny values,
classes and lemmas:

- **Projects section** (`Projects`, `Cyclic`). Each project card has an image
  carousel. Its wrap-around `handleNext`/`handlePrev` use JavaScript's
  truncating `%`, and a row of dots marks the current image. The stacked cards
  get a target scale, a scroll range and an alternating accent colour.
- **Testimonials** (`Testimonials`). The current testimonial index, the
  autoplay flag consulted by the 5-second interval, the next/previous/dot
  handlers and the visibility latch. They are modelled in two ways:
  - as a pure `Step`/`Run` transition function over events, about which the
    latch and autoplay properties are proved;
  - as a class whose handlers are each proved to perform one `Step`.
- **Navigation bar** (`Navbar`).
  - `handleScroll`'s left-to-right scan, which keeps the last navigation entry
    whose section has been reached (`offsetTop - 80 <= scrollY`). It is proved
    equal to a reference definition that searches from the end.
  - The `scrolled` threshold.
  - The menu's open flag, with `useLockBodyScroll` writing the body's
    `overflow` style.
- **Contact form** (`Contact`). The three fields and the `isLoading`/`sent`
  flags. The submission is split at the awaited relay call, and the relay's
  outcome (resolved or rejected) is an input. The button's disabled flag and
  caption are derived from the flags.
- **Fun facts** (`FunFacts`).
  - The counter target is taken from a fact's display string: its decimal
    digits, in order, read as a number.
  - The per-fact interval adds `target / 100` per tick, clamps at the target
    and then stops. It is modelled as a loop over exact reals.
  - The `"∞"` fact is skipped.
  - `formatNumber` produces the displayed text.

Timers, the intersection observer, scroll events and the mail relay are not
modelled as running code. They appear as method calls or event values:

- a tick;
- an observation with its `isIntersecting` flag;
- a page given as a map from section id to `offsetTop`, with a `scrollY`;
- a relay outcome.

## Model

| member | source | states |
|---|---|---|
| Cyclic.JsRem | src/components/projects.tsx:14-15 | JavaScript `%`: a non-negative dividend gives a remainder in `[0, b)`, a negative one gives a remainder in `(-b, 0]`, and dividend = truncated quotient × divisor + remainder |
| Cyclic.RemOfSmall | src/components/projects.tsx:14-15 | a non-negative dividend below twice the length is reduced by at most one subtraction of the length |
| Cyclic.NextIndex | src/components/projects.tsx:14 | `(i + 1) % len` stays in `[0, len)`; it is `i + 1` except at the last position, which wraps to 0 |
| Cyclic.PrevIndex | src/components/projects.tsx:15 | `(i - 1 + len) % len` stays in `[0, len)`; it is `i - 1` except at position 0, which wraps to `len - 1` |
| Cyclic.UnshiftedPrevLeavesRange | src/components/projects.tsx:15 | without adding `len`, stepping back from 0 gives -1, which is outside the range; this is why the source adds the length |
| Cyclic.PrevUndoesNext | src/components/projects.tsx:14-15 | previous after next returns to the starting index |
| Cyclic.NextUndoesPrev | src/components/projects.tsx:14-15 | next after previous returns to the starting index |
| Cyclic.NextTimes | src/components/projects.tsx:14 | any number of forward steps stays in `[0, len)` |
| Cyclic.FullCycle | src/components/projects.tsx:14 | `len` forward steps return to the starting index |
| Cyclic.ExactlyOneDotMarked | src/components/projects.tsx:65-68 | with the index in range, exactly one dot is marked |
| Projects.ImageCarousel.constructor | src/components/projects.tsx:11-12 | a carousel over a non-empty image list starts at index 0 |
| Projects.ImageCarousel.HandleNext | src/components/projects.tsx:14 | the index becomes `NextIndex` of the old index and stays in range |
| Projects.ImageCarousel.HandlePrev | src/components/projects.tsx:15 | the index becomes `PrevIndex` of the old index and stays in range |
| Projects.ImageCarousel.CurrentImage | src/components/projects.tsx:29 | the shown source is never empty: the current path, or the placeholder when that path is empty |
| Projects.ImageCarousel.DotMarks | src/components/projects.tsx:64-71 | one dot per image, exactly one marked, and that one is the current image's |
| Projects.EveryProjectHasImages | src/data/projects.ts:6-57 | there are five projects and each has at least one image, so each carousel's precondition holds |
| Projects.TargetScale | src/components/projects.tsx:87 | the target scale of every card is below 1 |
| Projects.TargetScaleIncreasing | src/components/projects.tsx:87 | the target scale strictly increases with the card index |
| Projects.TargetScaleBounds | src/components/projects.tsx:87 | with five projects every target scale lies in `[0.75, 0.95]` |
| Projects.CardRange | src/components/projects.tsx:93 | the range ends at 1, and its start is at most its end exactly when `index <= 4` |
| Projects.RangeStartNonDecreasing | src/components/projects.tsx:93 | range starts do not decrease with the index |
| Projects.RangesFitProjects | src/components/projects.tsx:86-93 | every one of the five cards gets a well-formed range |
| Projects.AccentColour | src/components/projects.tsx:118 | every card's accent is one of the two colours, cyan `#0bb3d9` or green `#16f28b` |
| Projects.AccentAlternates | src/components/projects.tsx:118 | even-numbered cards are cyan `#0bb3d9` and odd-numbered cards green `#16f28b`; neighbouring cards differ, and the colour repeats with period two |
| Testimonials.Step | src/components/testimonials.tsx:59-94 | every event keeps the index in `[0, 4)`; visibility is only ever raised; autoplay stays on exactly when it was on and the event is not manual |
| Testimonials.Run | src/components/testimonials.tsx:76-94 | any sequence of events keeps the index in `[0, 4)` |
| Testimonials.TickMovesOnlyWhileAutoplaying | src/components/testimonials.tsx:76-81 | a tick changes the index exactly when autoplay is on, and then it advances by one |
| Testimonials.AutoplayNeverResumes | src/components/testimonials.tsx:56 | once autoplay is off, no event sequence turns it back on |
| Testimonials.ManualActionStopsAutoplay | src/components/testimonials.tsx:86-94 | a run containing a next, previous or dot press ends with autoplay off |
| Testimonials.TicksAreIdleWithoutAutoplay | src/components/testimonials.tsx:76-77 | with autoplay off, any number of ticks leaves the whole state unchanged |
| Testimonials.VisibilityLatches | src/components/testimonials.tsx:59-67 | once visible, the section stays visible whatever happens |
| Testimonials.PrevInvertsNext | src/components/testimonials.tsx:87-92 | previous undoes next and next undoes previous on the index |
| Testimonials.AutoplayCycles | src/components/testimonials.tsx:79-81 | four autoplay ticks return to the starting testimonial |
| Testimonials.TestimonialsSection.constructor | src/components/testimonials.tsx:54-56 | starts hidden, at index 0, with autoplay on |
| Testimonials.TestimonialsSection.Tick | src/components/testimonials.tsx:76-81 | the interval callback performs exactly the `AutoplayTick` step |
| Testimonials.TestimonialsSection.NextTestimonial | src/components/testimonials.tsx:86-89 | performs exactly the `NextPressed` step |
| Testimonials.TestimonialsSection.PrevTestimonial | src/components/testimonials.tsx:91-94 | performs exactly the `PrevPressed` step |
| Testimonials.TestimonialsSection.SelectDot | src/components/testimonials.tsx:186-189 | performs exactly the `DotPressed` step, and the index becomes the chosen position |
| Testimonials.TestimonialsSection.Observe | src/components/testimonials.tsx:59-67 | the observer callback performs exactly the `Observed` step |
| Testimonials.TestimonialsSection.DotMarks | src/components/testimonials.tsx:183-192 | four dots, exactly one marked, the current testimonial's |
| Navbar.HrefToId | src/components/navbar.tsx:52 | `href.replace("#", "")` removes at most one character |
| Navbar.HrefWithoutHashUnchanged | src/components/navbar.tsx:52 | an href without `#` is its own id |
| Navbar.HrefToIdDropsFirstHash | src/components/navbar.tsx:52 | `replace("#", "")` removes the first `#` and keeps everything before and after it |
| Navbar.NavIds | src/components/navbar.tsx:8-14 | the five navigation entries target the ids `about`, `experience`, `projects`, `testimonials`, `contact` |
| Navbar.LastReached | src/components/navbar.tsx:50-61 | reference definition of the active section: the href of the last entry whose section is present and reached, or "" when there is none; its properties are the lemmas below |
| Navbar.LastReachedIsReached | src/components/navbar.tsx:50-60 | the active section is "" or the href of an entry whose section is present and reached |
| Navbar.ScanActiveSection | src/components/navbar.tsx:50-61 | the left-to-right scan that overwrites `current` equals the last reached entry, searched from the end |
| Navbar.LastReachedIsActive | src/components/navbar.tsx:51-58 | a reached entry with no reached entry after it is the active one |
| Navbar.UnreachedSuffixIgnored | src/components/navbar.tsx:51-58 | unreached entries at the end of the list make no difference |
| Navbar.ReachedItemMakesActive | src/components/navbar.tsx:51-58 | as soon as one entry is reached, some section is active |
| Navbar.NoActiveSectionIffNoneReached | src/components/navbar.tsx:50-61 | the active section is "" exactly when no entry is reached |
| Navbar.AbsentSectionNeverActive | src/components/navbar.tsx:53-54 | an entry whose section is not on the page is never active |
| Navbar.ActivatesAtBoundary | src/components/navbar.tsx:55-56 | at `scrollY == offsetTop - 80` the section is active; one pixel earlier the choice is made among the entries before it |
| Navbar.NotActiveBeforeBoundary | src/components/navbar.tsx:55-56 | one pixel before `offsetTop - 80` the section is not active, wherever the other sections start |
| Navbar.NavItemsWellFormed | src/components/navbar.tsx:8-14 | the site's five hrefs are non-empty and pairwise distinct, so the lemmas above apply to its own list |
| Navbar.ExperienceNeverActive | src/app/page.tsx:42-43 | as rendered, no section carries the id `experience`, so the "Experience" entry is never active at any scroll position |
| Navbar.TaggedExperienceActivates | src/components/navbar.tsx:50-61 | corrected: with the experience section tagged `id="experience"` and placed above the projects section, its entry is active at its boundary and not one pixel earlier |
| Navbar.ActiveSectionIsNavTarget | src/components/navbar.tsx:8-14 | the active section is always "" or one of the five navigation hrefs |
| Navbar.LockStyle | src/components/navbar.tsx:26-30 | the body's overflow style for a lock state: `"hidden"` while locked, `""` otherwise |
| Navbar.NavbarState.constructor | src/components/navbar.tsx:36-40 | mounting: menu closed, body unlocked, `scrolled` iff `scrollY > 50`, the initial `handleScroll` sets the active section |
| Navbar.NavbarState.HandleScroll | src/components/navbar.tsx:48-62 | `scrolled` is true iff `scrollY > 50`; the active section is the last reached entry |
| Navbar.NavbarState.ApplyScrollLock | src/components/navbar.tsx:24-30 | the body's overflow becomes `"hidden"` when the menu is open and `""` otherwise |
| Navbar.NavbarState.ToggleMenu | src/components/navbar.tsx:161 | the open flag flips, and the body is locked exactly when the menu is now open |
| Navbar.NavbarState.HashChange | src/components/navbar.tsx:70-77 | a hash change leaves the menu closed and the body unlocked; with the menu already closed nothing changes |
| Navbar.NavbarState.ScrollToSection | src/components/navbar.tsx:80-89 | the menu ends closed and unlocked, and the scroll target is the href's id |
| Navbar.NavbarState.Unmount | src/components/navbar.tsx:31 | the cleanup resets the body's overflow to `""` |
| Contact.ButtonDisabled | src/components/contact.tsx:178 | the submit button is disabled while a submission is in flight or after it was sent |
| Contact.ButtonLabel | src/components/contact.tsx:181-183 | "Send Message" iff the button is enabled, "Sent!" iff sent, "Sending..." iff loading and not sent |
| Contact.ContactForm.constructor | src/components/contact.tsx:24-31 | starts with empty fields, not loading, not sent, not visible |
| Contact.ContactForm.HandleInputChange | src/components/contact.tsx:45-50 | the named field takes the new value and the other two keep theirs |
| Contact.ContactForm.BeginSubmit | src/components/contact.tsx:52-66 | the loading flag is raised before the relay call, and the payload is the current fields |
| Contact.ContactForm.FinishSubmit | src/components/contact.tsx:67-75 | on success the fields are cleared and `sent` is set; on failure fields and `sent` are kept; loading is cleared on both |
| Contact.ContactForm.SentTimerElapsed | src/components/contact.tsx:70 | the timeout clears `sent` |
| Contact.ContactForm.Observe | src/components/contact.tsx:34-38 | the visibility flag is only ever raised |
| Contact.ContactForm.Button | src/components/contact.tsx:178-183 | the button is disabled exactly when its caption is not "Send Message" |
| Contact.SubmitOnce | src/components/contact.tsx:52-76 | a whole submission sends the fields as they were, keeps the button disabled in flight, clears loading, and leaves cleared fields with a disabled "Sent!" button on success or the old fields on failure |
| FunFacts.DigitsOf | src/components/fun-facts.tsx:95 | the extracted string holds only digits and is no longer than the input |
| FunFacts.Target | src/components/fun-facts.tsx:95 | `Number.parseInt` of the extracted digits, with `None` for NaN |
| FunFacts.TargetNaNIffNoDigit | src/components/fun-facts.tsx:95 | the target is NaN exactly when the fact has no ASCII digit |
| FunFacts.TargetIgnoresNonDigits | src/components/fun-facts.tsx:95 | removing a non-digit character anywhere leaves the target unchanged |
| FunFacts.TrailingPlusIgnored | src/components/fun-facts.tsx:95 | a trailing "+" does not change the target |
| FunFacts.TargetOfFact0 | src/components/fun-facts.tsx:11 | "2,847" gives the target 2847 |
| FunFacts.TargetOfFact1 | src/components/fun-facts.tsx:18 | "500K+" gives the target 500 |
| FunFacts.TargetOfFact2 | src/components/fun-facts.tsx:25 | "1,200+" gives the target 1200 |
| FunFacts.TargetOfFact4 | src/components/fun-facts.tsx:39 | "3,500+" gives the target 3500 |
| FunFacts.TargetOfPlainFacts | src/components/fun-facts.tsx:32-53 | "15", "12" and "48" give their own values |
| FunFacts.TargetOfFact7 | src/components/fun-facts.tsx:60 | "∞" has no digits and so no target |
| FunFacts.FactTargets | src/components/fun-facts.tsx:8-65 | the target of each of the eight facts |
| FunFacts.Decimal | src/components/fun-facts.tsx:111 | the numeral of `n` is a non-empty digit string whose value is `n` |
| FunFacts.Group3 | src/components/fun-facts.tsx:113 | a thousands group is three digits |
| FunFacts.Group3Value | src/components/fun-facts.tsx:113 | appending a group multiplies the value by 1000 and adds the group |
| FunFacts.Grouped | src/components/fun-facts.tsx:113 | the en-US grouped numeral starts and ends with a digit |
| FunFacts.GroupedDigits | src/components/fun-facts.tsx:113 | the digits of the comma-grouped numeral are non-empty and have value `n` |
| FunFacts.GroupedRoundTrip | src/components/fun-facts.tsx:113 | reading a grouped numeral back as a target gives the number that was grouped |
| FunFacts.KSuffixRoundTrip | src/components/fun-facts.tsx:111 | a numeral followed by "K+" reads back as its number |
| FunFacts.RoundedThousands | src/components/fun-facts.tsx:111 | `toFixed(0)` of `num / 1000` is the integer nearest to it, a tie going up: within half of it, exactly half only from below |
| FunFacts.FormatNumberAsWritten | src/components/fun-facts.tsx:109-114 | a "K" fact's text ends in "K+" and reads back as the counter divided by 1000 and rounded; any other fact's text reads back as the counter |
| FunFacts.KFactSettlesAsWritten | src/components/fun-facts.tsx:110-111 | "500K+" has target 500, and once settled it is shown as "1K+", whose number differs from the fact's |
| FunFacts.FormatNumber | src/components/fun-facts.tsx:109-114 | corrected: a "K" fact's text ends in "K+", and every shown text reads back as the counter itself |
| FunFacts.SettledDisplayShowsFact | src/components/fun-facts.tsx:180 | corrected: with the corrected formatter, a settled counter shows the fact's own number |
| FunFacts.SettledDisplays | src/components/fun-facts.tsx:109-113 | corrected: with the corrected formatter, the settled texts of the first three facts are "2,847", "500K+" and "1,200" |
| FunFacts.SettledDisplay0 | src/components/fun-facts.tsx:113 | the settled text of "2,847" is "2,847" |
| FunFacts.SettledDisplay1 | src/components/fun-facts.tsx:110-111 | with the corrected K branch, the settled text of "500K+" is "500K+" |
| FunFacts.SettledDisplay2 | src/components/fun-facts.tsx:113 | the settled text of "1,200+" is "1,200": the digits survive, the plus sign does not |
| FunFacts.CounterBounded | src/components/fun-facts.tsx:99-104 | the stored count never exceeds the target, is below it before the last tick (for a positive target), and equals it at the last tick |
| FunFacts.CounterMonotone | src/components/fun-facts.tsx:99-104 | stored counts do not decrease from tick to tick |
| FunFacts.Advance | src/components/fun-facts.tsx:98-103 | one tick never decreases `current` and never passes the target; the interval is cleared exactly when `current` equals the target |
| FunFacts.ReachesTargetAtLastTick | src/components/fun-facts.tsx:97-100 | the accumulated increments reach the target exactly at tick 100 (tick 1 for target 0) |
| FunFacts.FloorOfCurrent | src/components/fun-facts.tsx:104 | the floor of the exact `current` after `ticks` ticks is `ticks * target / 100` rounded down |
| FunFacts.CountUp | src/components/fun-facts.tsx:96-105 | one interval run to completion stores one count per tick, in closed form, non-decreasing, never above the target, ending exactly at it and below it before |
| FunFacts.StoredCounts | src/components/fun-facts.tsx:99-104 | the counts of a completed interval never decrease, never exceed the target, are below it before the last tick and equal it at the last |
| FunFacts.CountedFacts | src/components/fun-facts.tsx:92-95 | a fact gets a counter exactly when it is not "∞" |
| FunFacts.FactsCountable | src/components/fun-facts.tsx:93-95 | every fact other than "∞" has digits to count to |
| FunFacts.StartIntervals | src/components/fun-facts.tsx:92-97 | the `forEach` over the facts starts an interval exactly for the facts that are not "∞", each with `current` 0 and the target read from its fact |
| FunFacts.FunFactsSection.constructor | src/components/fun-facts.tsx:68-69 | starts hidden with no counters and no intervals |
| FunFacts.FunFactsSection.Observe | src/components/fun-facts.tsx:72-107 | the first time the section is seen, an interval with `current` 0 and its fact's target starts for every fact except "∞"; until then no interval runs and no counter exists; later observations change nothing |
| FunFacts.FunFactsSection.Tick | src/components/fun-facts.tsx:98-104 | a tick advances that fact's `current` as `Advance` does and stores its floor; the stored count never decreases or passes the target, and the interval is cleared exactly when the stored count equals the target |
| FunFacts.FunFactsSection.Shown | src/components/fun-facts.tsx:180 | corrected: "∞" is shown as "∞"; through the corrected formatter, any other fact shows text that reads back as its stored counter, or 0 when it has none |

## Left out

- The scale interpolation of `useScroll`/`useTransform` (src/components/projects.tsx:80-83, 117) is library behaviour over floats. Only its inputs, the target scale and the range, are modelled.
- The mail relay call is an opaque outcome, `Resolved` or `Rejected`. The service, template and key identifiers are not modelled.
- The toast notifications have no effect on the state and are left out.
- Timers are not modelled as real time. The intervals and timeouts are explicit calls: a testimonial tick, a fact's tick and the "Sent!" timeout. Intervals are started and cleared as set membership, not as timer handles.
- Navbar.NavbarState.ScrollToSection: returns the id to scroll to at once. The 100 ms timeout, the `getElementById` lookup that may find nothing, and the smooth `scrollIntoView` that follows it are not modelled.
- A page is a map from section id to `offsetTop`, and `scrollY` is a whole number of pixels.
- Projects.TargetScale: computes `1 - (N - index) * 0.05` in exact reals. JavaScript's doubles round 0.05 and the product, so the source's values can differ from these in the last bits.
- Projects.CardRange: computes `index * 0.25` in exact reals, not in JavaScript doubles.
- FunFacts.Advance: uses exact rational arithmetic for `current += target / 100`. It does not model floating-point accumulation, which can stop a tick earlier or later than the exact count.
- FunFacts.Grouped: models `toLocaleString()` in the en-US locale only: comma-separated groups of three digits.
- FunFacts.RoundedThousands: models `toFixed(0)` only for a non-negative whole counter divided by 1000. A tie rounds up.
- FunFacts.Target: a fact other than "∞" with no digits would give NaN. That is modelled as `None`, and such a fact never gets a counter. No fact in the list is like that.
- Projects.ImageCarousel.constructor: requires a non-empty image list. An empty list would make the index NaN in the source. Every project supplies images (`Projects.EveryProjectHasImages`).
- Contact.ContactForm.HandleInputChange: the input's `name` is a `Field` value. An input with any other name, which would add a fourth key to the form data, cannot occur in this form.
- The hero parallax, the random particle positions, the hover states and the static sections hold none of the modelled logic.
- The arrow glyph beside the submit button's caption is left out.

## Findings

| source | as written | input that shows it | evidently intended | confidence | as-written member | corrected member |
|---|---|---|---|---|---|---|
| src/components/fun-facts.tsx:110-111 | a fact containing "K" is shown as the counter divided by 1000, rounded, followed by "K+"; but the counter's target is read from the digits alone (line 95), so "500K+" counts to 500 | the fact "500K+": its counter settles at 500, and `(500 / 1000).toFixed(0)` gives "1", so the section shows "1K+" | the settled display shows the fact's own number, "500K+" | high; not executed | FunFacts.KFactSettlesAsWritten | FunFacts.FormatNumber |
| src/app/page.tsx:42-43 | the navigation has an "Experience" entry whose href is "#experience" (src/components/navbar.tsx:10), but `<Experience />` is rendered without a wrapping section and its own section (src/components/experience.tsx:77) has no id | any scroll position: no element has the id `experience`, so `handleScroll` never makes "#experience" active, and `scrollToSection("#experience")` finds nothing to scroll to | the experience section carries `id="experience"`, like the about, projects, testimonials and contact sections | high; not executed | Navbar.ExperienceNeverActive | Navbar.TaggedExperienceActivates |

`FunFacts.FormatNumberAsWritten` is the source's `formatNumber` as written. The section's display, `FunFacts.FunFactsSection.Shown`, uses the corrected `FunFacts.FormatNumber`. For every fact, a settled counter then shows text that reads back as the fact's target (`FunFacts.SettledDisplayShowsFact`, `FunFacts.SettledDisplays`).
