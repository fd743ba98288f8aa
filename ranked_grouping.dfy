/**
  `AnyElementGrouping.swift` (Swallow): a grouping of elements is a single
  element, a set, a sequence, or a ranked hierarchy of a primary element
  and optional secondary and tertiary ones. Iterating a ranked hierarchy
  yields the elements that are present, in rank order.
 */
module RankedGrouping {
  import opened Wrappers

  datatype RankedHierarchy<T> = RankedHierarchy(primary: T, secondary: Option<T>, tertiary: Option<T>)

  datatype AnyElementGrouping<T> =
    | Single(element: T)
    | SetOf(elements: set<T>)
    | SequenceOf(sequence: seq<T>)
    | Ranked(ranked: RankedHierarchy<T>)

  /** `init(primary:)`. */
  function RankedOfPrimary<T>(primary: T): (h: RankedHierarchy<T>)
    ensures h.primary == primary && h.secondary.None? && h.tertiary.None?
  {
    RankedHierarchy(primary, None, None)
  }

  /** `init(primary:secondary:)`. */
  function RankedOfTwo<T>(primary: T, secondary: Option<T>): (h: RankedHierarchy<T>)
    ensures h.primary == primary && h.secondary == secondary && h.tertiary.None?
  {
    RankedHierarchy(primary, secondary, None)
  }

  /** The `present` part of an optional element: nothing for `nil`. */
  function Present<T>(x: Option<T>): (r: seq<T>)
    ensures x.None? <==> r == []
    ensures x.Some? ==> r == [x.value]
  {
    if x.Some? then [x.value] else []
  }

  /** `makeIterator()`: `[primary, secondary, tertiary]` with the `nil`s dropped. */
  function RankedElements<T>(h: RankedHierarchy<T>): seq<T> {
    [h.primary] + Present(h.secondary) + Present(h.tertiary)
  }

  /** The `ranked(...)` constructors of the grouping. */
  function RankedPrimary<T>(primary: T): (g: AnyElementGrouping<T>)
    ensures g == Ranked(RankedOfPrimary(primary))
  {
    Ranked(RankedHierarchy(primary, None, None))
  }

  function RankedPrimarySecondary<T>(primary: T, secondary: T): (g: AnyElementGrouping<T>)
    ensures g == Ranked(RankedOfTwo(primary, Some(secondary)))
  {
    Ranked(RankedHierarchy(primary, Some(secondary), None))
  }

  function RankedAll<T>(primary: T, secondary: T, tertiary: T): (g: AnyElementGrouping<T>)
    ensures g.Ranked? && g.ranked.primary == primary
    ensures g.ranked.secondary == Some(secondary) && g.ranked.tertiary == Some(tertiary)
  {
    Ranked(RankedHierarchy(primary, Some(secondary), Some(tertiary)))
  }

  /**
    The iteration order of every case but the set, whose hash order Swift
    leaves unspecified.
   */
  function Elements<T>(g: AnyElementGrouping<T>): seq<T>
    requires !g.SetOf?
  {
    match g
    case Single(e) => [e]
    case SequenceOf(s) => s
    case Ranked(h) => RankedElements(h)
  }

  /** `xs` is a possible iteration of `g`: for a set, each member once in some order. */
  ghost predicate IsIteration<T>(g: AnyElementGrouping<T>, xs: seq<T>) {
    if g.SetOf? then
      (forall i, j :: 0 <= i < j < |xs| ==> xs[i] != xs[j]) && (set x | x in xs) == g.elements
    else xs == Elements(g)
  }

  // ----- properties -----

  /**
    Ranked iteration starts with the primary element and yields each
    present element once, in rank order; a missing secondary is skipped
    while a present tertiary is still yielded.
   */
  lemma RankedOrder<T>(h: RankedHierarchy<T>)
    ensures var xs := RankedElements(h);
      xs[0] == h.primary &&
      (h.secondary.Some? ==> xs[1] == h.secondary.value) &&
      (h.tertiary.Some? ==> xs[|xs| - 1] == h.tertiary.value) &&
      (h.secondary.None? && h.tertiary.Some? ==> xs == [h.primary, h.tertiary.value])
  {
  }

  /** Ranked iteration yields one to three elements: the primary plus one per present rank. */
  lemma RankedLength<T>(h: RankedHierarchy<T>)
    ensures |RankedElements(h)| == 1 + (if h.secondary.Some? then 1 else 0) + (if h.tertiary.Some? then 1 else 0)
    ensures 1 <= |RankedElements(h)| <= 3
  {
  }

  /** An element is yielded exactly when it has one of the three ranks. */
  lemma RankedMembership<T>(h: RankedHierarchy<T>, x: T)
    ensures x in RankedElements(h) <==>
      x == h.primary || h.secondary == Some(x) || h.tertiary == Some(x)
  {
  }

  /** `ranked(primary:)` and `.single(e)` both iterate as exactly `[e]`. */
  lemma SingleAndRankedPrimaryAgree<T>(e: T)
    ensures Elements(Single(e)) == [e]
    ensures Elements(RankedPrimary(e)) == [e]
  {
  }

  /** The three-element constructor yields its arguments in order. */
  lemma RankedAllInOrder<T>(primary: T, secondary: T, tertiary: T)
    ensures Elements(RankedAll(primary, secondary, tertiary)) == [primary, secondary, tertiary]
  {
  }

  /** An empty set has only the empty iteration, and a sequence iterates as itself. */
  lemma IterationOfSetsAndSequences<T>(xs: seq<T>)
    ensures IsIteration(SetOf({}), xs) <==> xs == []
    ensures IsIteration(SequenceOf(xs), xs)
  {
    var g: AnyElementGrouping<T> := SetOf({});
    if xs != [] {
      assert xs[0] in (set x | x in xs);
      assert xs[0] !in g.elements;
    }
  }
}
