/** The active-link highlighter of js/script.js (`highlightNavigation`): for each
    `section[id]`, in document order, the first `.nav-link` whose href is `#id`
    gains `active` when the scroll offset lies in the section's span and loses it
    otherwise. Link flags are a sequence parallel to the links' hrefs. */
module Highlight {
  import opened Optional

  /** Offset subtracted from a section's `offsetTop` before the span test. */
  const SectionOffset := 100

  /** A `section[id]`: its id attribute, `offsetTop` and `offsetHeight`. */
  datatype Section = Section(id: string, top: int, height: nat)

  /** The scroll offset `y` falls in the section's span, which is open at the
      shifted top and closed at the shifted bottom. */
  predicate InSection(s: Section, y: int) {
    s.top - SectionOffset < y <= s.top - SectionOffset + s.height
  }

  /** The href a nav link needs to belong to the section with this id. */
  function LinkHref(id: string): (h: string)
    ensures |h| == |id| + 1 && h[0] == '#' && h[1..] == id
  {
    "#" + id
  }

  /** The index of the first link whose href is `href` (what `querySelector`
      returns), or None when no link has it. */
  function FirstLink(hrefs: seq<string>, href: string): (r: Option<nat>)
    ensures r.Some? ==> r.value < |hrefs| && hrefs[r.value] == href
    ensures r.Some? ==> forall j :: 0 <= j < r.value ==> hrefs[j] != href
    ensures r.None? ==> forall j :: 0 <= j < |hrefs| ==> hrefs[j] != href
    decreases |hrefs|
  {
    if hrefs == [] then None
    else if hrefs[0] == href then Some(0)
    else match FirstLink(hrefs[1..], href)
      case None => None
      case Some(k) => Some(k + 1)
  }

  /** The link index the section writes to, if it has a link. */
  function LinkOf(hrefs: seq<string>, s: Section): Option<nat> {
    FirstLink(hrefs, LinkHref(s.id))
  }

  /** One iteration of the `forEach`: set or clear the section's link, or skip
      the section when no link matches. */
  function Step(active: seq<bool>, hrefs: seq<string>, s: Section, y: int): (r: seq<bool>)
    requires |active| == |hrefs|
    ensures |r| == |active|
  {
    match LinkOf(hrefs, s)
    case None => active
    case Some(j) => active[j := InSection(s, y)]
  }

  /** The link flags after the loop has handled every section of `ss`, in order. */
  function Highlighted(active: seq<bool>, hrefs: seq<string>, ss: seq<Section>, y: int): (r: seq<bool>)
    requires |active| == |hrefs|
    ensures |r| == |active|
    decreases |ss|
  {
    if ss == [] then active
    else Step(Highlighted(active, hrefs, ss[..|ss| - 1], y), hrefs, ss[|ss| - 1], y)
  }

  /** The last section of `ss` that writes to link `j`: the one whose test decides it. */
  function LastWriter(hrefs: seq<string>, ss: seq<Section>, j: nat): (r: Option<nat>)
    ensures r.Some? ==> r.value < |ss|
    decreases |ss|
  {
    if ss == [] then None
    else if LinkOf(hrefs, ss[|ss| - 1]) == Some(j) then Some(|ss| - 1)
    else LastWriter(hrefs, ss[..|ss| - 1], j)
  }

  lemma {:induction false} LastWriterSpec(hrefs: seq<string>, ss: seq<Section>, j: nat)
    ensures LastWriter(hrefs, ss, j).Some? ==>
      var k := LastWriter(hrefs, ss, j).value;
      k < |ss| && LinkOf(hrefs, ss[k]) == Some(j) &&
      forall m :: k < m < |ss| ==> LinkOf(hrefs, ss[m]) != Some(j)
    ensures LastWriter(hrefs, ss, j).None? ==>
      forall m :: 0 <= m < |ss| ==> LinkOf(hrefs, ss[m]) != Some(j)
    decreases |ss|
  {
    if ss != [] {
      var init := ss[..|ss| - 1];
      LastWriterSpec(hrefs, init, j);
      forall m | 0 <= m < |init| ensures ss[m] == init[m] { }
    }
  }

  /** Pointwise meaning of the loop: a link keeps its flag when no section writes to
      it, and otherwise ends up with the span test of the last section that does. */
  lemma {:induction false} HighlightedAt(active: seq<bool>, hrefs: seq<string>, ss: seq<Section>, y: int, j: nat)
    requires |active| == |hrefs| && j < |active|
    ensures Highlighted(active, hrefs, ss, y)[j] ==
      match LastWriter(hrefs, ss, j)
      case None => active[j]
      case Some(k) => InSection(ss[k], y)
    decreases |ss|
  {
    if ss != [] {
      var init := ss[..|ss| - 1];
      HighlightedAt(active, hrefs, init, y, j);
      LastWriterSpec(hrefs, init, j);
      match LastWriter(hrefs, init, j)
      case None =>
      case Some(k) => assert ss[k] == init[k];
    }
  }

  /** Running the highlighter twice at the same offset gives the same flags as
      running it once: the raw and the debounced registrations agree. */
  lemma HighlightIdempotent(active: seq<bool>, hrefs: seq<string>, ss: seq<Section>, y: int)
    requires |active| == |hrefs|
    ensures Highlighted(Highlighted(active, hrefs, ss, y), hrefs, ss, y) == Highlighted(active, hrefs, ss, y)
  {
    var once := Highlighted(active, hrefs, ss, y);
    var twice := Highlighted(once, hrefs, ss, y);
    forall j | 0 <= j < |active| ensures twice[j] == once[j] {
      HighlightedAt(active, hrefs, ss, y, j);
      HighlightedAt(once, hrefs, ss, y, j);
    }
  }

  /** A section that no later section overrides decides its own link: active iff
      the offset lies in its span. */
  lemma SectionDecidesLink(active: seq<bool>, hrefs: seq<string>, ss: seq<Section>, y: int, k: nat, j: nat)
    requires |active| == |hrefs| && k < |ss|
    requires LinkOf(hrefs, ss[k]) == Some(j)
    requires forall m :: k < m < |ss| ==> LinkOf(hrefs, ss[m]) != Some(j)
    ensures j < |active|
    ensures Highlighted(active, hrefs, ss, y)[j] == InSection(ss[k], y)
  {
    LastWriterSpec(hrefs, ss, j);
    HighlightedAt(active, hrefs, ss, y, j);
  }

  /** Two sections that share a link have the same id. */
  lemma SameLinkSameId(hrefs: seq<string>, a: Section, b: Section)
    requires LinkOf(hrefs, a).Some? && LinkOf(hrefs, a) == LinkOf(hrefs, b)
    ensures a.id == b.id
  {
    var j := LinkOf(hrefs, a).value;
    assert LinkHref(a.id)[1..] == a.id && LinkHref(b.id)[1..] == b.id;
  }

  /** With distinct section ids, after the loop every section that has a link sees
      it active exactly when the offset lies in its span. */
  lemma HighlightMatchesSpans(active: seq<bool>, hrefs: seq<string>, ss: seq<Section>, y: int, k: nat)
    requires |active| == |hrefs| && k < |ss|
    requires forall a, b :: 0 <= a < b < |ss| ==> ss[a].id != ss[b].id
    requires LinkOf(hrefs, ss[k]).Some?
    ensures LinkOf(hrefs, ss[k]).value < |active|
    ensures Highlighted(active, hrefs, ss, y)[LinkOf(hrefs, ss[k]).value] == InSection(ss[k], y)
  {
    var j := LinkOf(hrefs, ss[k]).value;
    forall m | k < m < |ss| ensures LinkOf(hrefs, ss[m]) != Some(j) {
      if LinkOf(hrefs, ss[m]) == Some(j) {
        SameLinkSameId(hrefs, ss[k], ss[m]);
      }
    }
    SectionDecidesLink(active, hrefs, ss, y, k, j);
  }

  /** Links that no section points at are never touched. */
  lemma UnmatchedLinkUnchanged(active: seq<bool>, hrefs: seq<string>, ss: seq<Section>, y: int, j: nat)
    requires |active| == |hrefs| && j < |active|
    requires forall m :: 0 <= m < |ss| ==> LinkOf(hrefs, ss[m]) != Some(j)
    ensures Highlighted(active, hrefs, ss, y)[j] == active[j]
  {
    LastWriterSpec(hrefs, ss, j);
    HighlightedAt(active, hrefs, ss, y, j);
  }

  /** Back-to-back sections never both claim an offset: the spans are half-open. */
  lemma AdjacentSpansDisjoint(a: Section, b: Section, y: int)
    requires b.top == a.top + a.height
    ensures !(InSection(a, y) && InSection(b, y))
  {
  }
}
