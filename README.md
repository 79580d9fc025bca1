# Portfolio navigation scroll-spy and animated counters, in Dafny

This project models the two pieces of behaviour in a personal portfolio
site's front end that are more than markup:

- **Navigation** (`src/components/Navigation.tsx`). The registry of seven
  section links. The scroll handler sets the "scrolled" flag and picks the
  active section for highlighting. It scans the sections from the bottom of
  the page to the top and stops at the first one whose element exists and
  whose top edge is at most 100 px below the viewport top. When no section
  qualifies it keeps the previous one. The model also covers the mobile-menu
  flag, which a link click closes and the menu button toggles. The state
  cells are the fields of the class `Navigation.NavigationState`. The DOM
  lookups become a parameter `tops`, indexed like the registry: `None` for an
  element that is not in the document, `Some(top)` for the top edge of one
  that is.
- **Animated counter** (`AnimatedCounter` in `src/components/sections/About.tsx`
  and `src/components/sections/Achievements.tsx`). It is a one-shot tick
  machine that stays idle until its element first comes into view. Each tick
  of its single interval then adds `value / steps` to an accumulator and
  shows its floor. Once the accumulator reaches the value, it shows exactly
  the value and clears the interval. Both source components share the class
  `Counter.AnimatedCounter`. The modules `About` (60 ticks, explicit suffix)
  and `Achievements` (40 ticks, suffix defaulting to `""`, text labels shown
  verbatim) fix the constants of each variant. `Decimal` gives the text
  JavaScript prints for the integer count, for magnitudes below 10^21.

Modules: `Wrappers` (Option), `Navigation`, `Decimal`, `Counter`, `About`,
`Achievements`, one file each.

## Model

| member | source | states |
|---|---|---|
| Navigation.RegistryAnchors | src/components/Navigation.tsx:7-27 | mapping the registry's hrefs through `slice(1)` yields exactly home, about, skills, projects, experience, achievements, contact, in registry order |
| Navigation.RegistryHrefs | src/components/Navigation.tsx:7-15 | every href is its anchor id with a leading `#` |
| Navigation.AnchorsDistinct | src/components/Navigation.tsx:7-15 | no two registered sections share an anchor id |
| Navigation.AnchorId | src/components/Navigation.tsx:27 | the id is the href with its first character removed; the empty href gives the empty id |
| Navigation.SectionIds | src/components/Navigation.tsx:27 | the id list has one entry per link, in the same order, each the link's href without its first character |
| Navigation.RegisteredSections | src/components/Navigation.tsx:27 | the ids the handler scans are exactly the seven registered anchors |
| Navigation.Reverse | src/components/Navigation.tsx:28 | reversing keeps the length |
| Navigation.ReverseAt | src/components/Navigation.tsx:28 | position k of the reversed list holds the element at position n-1-k, so the scan visits the registry from last to first |
| Navigation.LastQualifying | src/components/Navigation.tsx:28-35 | the result is the largest index whose element exists with top <= 100, with no qualifying index after it; None exactly when no index qualifies |
| Navigation.LastQualifyingUnique | src/components/Navigation.tsx:28-35 | any qualifying index with no qualifying index after it is the one the bottom-to-top scan stops at |
| Navigation.NextActive | src/components/Navigation.tsx:28-37 | the section after one scroll event is the previous one or a registered anchor, and a registered anchor whenever some section qualifies; `NextActiveIs` pins down which |
| Navigation.NextActiveRegistered | src/components/Navigation.tsx:33 | a scroll event maps a registered active section to a registered one |
| Navigation.NextActiveIs | src/components/Navigation.tsx:28-37 | section i becomes active if and only if it qualifies and no later section does, or nothing qualifies and it was already active |
| Navigation.NextActiveKeeps | src/components/Navigation.tsx:28-37 | when no section qualifies (all elements missing or all tops > 100) the active section is unchanged |
| Navigation.MissingNeverSelected | src/components/Navigation.tsx:29-30 | a section whose element is missing does not become active in that pass |
| Navigation.AboutAboveSkillsBelow | src/components/Navigation.tsx:28-35 | with "about" at 50 px and "skills" at 500 px, "about" becomes active |
| Navigation.ThresholdInclusive | src/components/Navigation.tsx:32 | a top of exactly 100 qualifies and a top of 101 does not |
| Navigation.ActiveAfterRegistered | src/components/Navigation.tsx:20-37 | starting from a registered section such as "home", any series of scroll events leaves a registered active section |
| Navigation.ExactlyOneHighlighted | src/components/Navigation.tsx:97-101 | while the active section is registered, exactly one registry link is highlighted |
| Navigation.NavigationState.constructor | src/components/Navigation.tsx:18-20 | the bar starts unscrolled, with the menu closed and "home" active |
| Navigation.NavigationState.HandleScroll | src/components/Navigation.tsx:23-38 | the scrolled flag becomes `scrollY > 50`; the active section becomes the bottom-most qualifying section, or stays when none qualifies; it stays registered; the menu flag is untouched |
| Navigation.NavigationState.ScrollToSection | src/components/Navigation.tsx:44-50 | the page scrolls exactly when the document has an element whose id is the href without its `#`, and the mobile menu is closed either way |
| Navigation.NavigationState.ToggleMobileMenu | src/components/Navigation.tsx:124 | the menu button flips the open flag |
| Decimal.FromNat | src/components/sections/About.tsx:42 | the numeral is non-empty, made of digits, and starts with 0 only for 0 |
| Decimal.NatRoundTrip | src/components/sections/About.tsx:42 | reading back the numeral of n gives n |
| Decimal.FromNatInjective | src/components/sections/About.tsx:42 | different counts render as different numerals |
| Decimal.FromInt | src/components/sections/About.tsx:42 | the text is non-empty and starts with `-` exactly for a negative number |
| Decimal.IntRoundTrip | src/components/sections/About.tsx:42 | the text of any integer is a well-formed signed numeral, and `ToInt` reads it back as that integer |
| Decimal.FromIntInjective | src/components/sections/About.tsx:42 | different integers print differently |
| Counter.AccumulatedClosedForm | src/components/sections/About.tsx:23-27 | `Accumulated`, the accumulator after k ticks of `current += increment` from 0, is k times `value / steps` |
| Counter.AccumulatedMonotone | src/components/sections/About.tsx:21-27 | for a non-negative value the accumulator never decreases |
| Counter.FinishTick | src/components/sections/About.tsx:21-30 | the snapping tick lies between 1 and steps |
| Counter.FinishesAtFinishTick | src/components/sections/About.tsx:21-30 | the accumulator first reaches the value on tick `steps` for a positive value (and equals it exactly there), on the first tick otherwise |
| Counter.DisplayBounds | src/components/sections/About.tsx:28-32 | `DisplayAfter`, the count shown after k ticks (the value once the accumulator has reached it, its floor before), is at least 0 and at most the value; the shown count lies between 0 and the value, and is strictly below the value before the finishing tick |
| Counter.DisplayMonotone | src/components/sections/About.tsx:27-32 | for a non-negative value, later counts are never smaller |
| Counter.DisplayFinal | src/components/sections/About.tsx:28-30 | from the finishing tick on, the count is exactly the value |
| Counter.AnimatedCounter.constructor | src/components/sections/About.tsx:14-17 | a mounted counter shows 0, is not in view and has no interval |
| Counter.AnimatedCounter.BecomeVisible | src/components/sections/Achievements.tsx:61-71 | the first visibility latches `isInView` and starts the one interval for a number, nothing for a label; later events change nothing |
| Counter.AnimatedCounter.Tick | src/components/sections/About.tsx:26-34 | a live tick adds the increment; at or past the value it shows exactly the value, on the finishing tick, and clears the interval; otherwise the floor; without an interval nothing changes; for a non-negative value the count never decreases or exceeds the value |
| Counter.AnimatedCounter.Dispose | src/components/sections/About.tsx:36 | teardown clears the interval and leaves the shown count as it was |
| Counter.RenderedText | src/components/sections/Achievements.tsx:86-90 | `AnimatedCounter.Render`: a label renders verbatim; a number renders as "0" and the suffix before it is in view, as a numeral below the value mid-animation, and as the value and the suffix once done |
| Counter.RunToCompletion | src/components/sections/About.tsx:19-36 | a run from visibility to the cleared interval shows one count per tick, FinishTick of them, all below the value but the last, which is the value; for a non-negative value they never decrease; the final text is the value and the suffix |
| About.NewCounter | src/components/sections/About.tsx:14-24 | the About counter uses 60 ticks and the given suffix, and starts at 0 |
| About.AnimateStat | src/components/sections/About.tsx:7-45 | a positive statistic snaps on tick 60 and not before, and renders as its value and suffix |
| About.StatsSnapOnLastTick | src/components/sections/About.tsx:7-12 | every About statistic is positive, so each snaps to its value on tick 60 |
| About.ProblemsSolvedFinalText | src/components/sections/About.tsx:8 | the first statistic finishes as "500+" |
| Achievements.NewCounter | src/components/sections/Achievements.tsx:58-70 | the Achievements counter uses 40 ticks, with suffix "" unless one is given, and starts at 0 |
| Achievements.ShowLabel | src/components/sections/Achievements.tsx:64-66 | a label counter that comes into view starts no interval and renders the label verbatim |
| Achievements.ShowRank | src/components/sections/Achievements.tsx:52 | the GeeksforGeeks rank renders as "Top 10%" and never animates |
| Achievements.NumericStatsSnapOnLastTick | src/components/sections/Achievements.tsx:37-53 | every numeric platform statistic is positive, so each snaps to its value on tick 40 |
| Achievements.AnimateNumber | src/components/sections/Achievements.tsx:68-90 | a positive number snaps on tick 40 and not before, and with the default suffix renders as the bare number |
| Achievements.LeetCodeProblemsFinalText | src/components/sections/Achievements.tsx:38 | the LeetCode problem count finishes as "300" |

## Left out

- Markup, styling, icons and the framer-motion animation props: they are presentational.
- DOM and browser APIs (`getElementById`, `getBoundingClientRect`, `scrollIntoView`, `window.scrollY`) become the parameters `tops`, `scrollY` and `present` (the ids the document has). Smooth scrolling itself is not modelled.
- Registering and removing the scroll listener (`Navigation.tsx:40-41`) is not modelled. The handler runs only on scroll events, not once at mount, and the model follows the code in this.
- `useInView` and its `once` option are library code. They become the event `BecomeVisible`, which latches and takes effect at most once.
- Pixel values (`getBoundingClientRect().top`, `window.scrollY`) are fractional numbers in the browser and integers here. Only the comparisons `top <= 100` and `scrollY > 50` use them, so no decision changes for integral positions; fractional positions between integers are not modelled.
- Decimal.FromInt: renders every digit of an unbounded integer. JavaScript prints magnitudes of 10^21 and more in exponential notation and is inexact above 2^53; counts that large do not occur here.
- Interval timing (`duration / steps` ms, 2000 ms and 1500 ms) becomes discrete calls to `Tick`.
- IEEE-754 rounding of the accumulator is not modelled: `current` is an exact real. In floating point the snap to the value can come one tick later than `FinishTick`. Bounds, monotonicity and the exact final value hold either way.
- Counter values are modelled as integers (every value in the source is one). A change of `value` while mounted, which would re-run the effect, is not modelled: the value is fixed per counter.
- Counter.AnimatedCounter.Tick: monotonicity and the upper bound are stated only for a non-negative value, the only case the source uses.
- The typewriter effect (`Hero.tsx`), the contact form (`Contact.tsx`), and the static lists in `Projects.tsx`, `Experience.tsx`, `Skills.tsx`, `Footer.tsx` and `ProfilePhoto.tsx` are not part of this model. They lay out fixed content or simulate a submission.
