/** The fade-in revealer of js/script.js: every `.reel-item`, `.project-item` and
    `.contact-content` is styled hidden at load, and the intersection observer's
    callback styles an element visible when an entry reports it intersecting.
    Elements are numbered in document order; the styles are one value per element. */
module FadeIn {

  /** The inline opacity/transform an animated element carries. */
  datatype Fade = Unstyled | Hidden | Shown

  /** One intersection-observer entry: the observed element and whether it intersects. */
  datatype Entry = Entry(target: nat, isIntersecting: bool)

  /** Every entry names one of the `n` observed elements. */
  predicate Targets(es: seq<Entry>, n: nat) {
    forall k :: 0 <= k < |es| ==> es[k].target < n
  }

  /** Some entry of `es` reports element `i` intersecting. */
  predicate IntersectsIn(es: seq<Entry>, i: nat) {
    exists k :: 0 <= k < |es| && es[k].target == i && es[k].isIntersecting
  }

  /** The styles after the callback has handled the entries of `es`, in order. */
  function Revealed(f: seq<Fade>, es: seq<Entry>): (r: seq<Fade>)
    requires Targets(es, |f|)
    ensures |r| == |f|
    decreases |es|
  {
    if es == [] then f
    else
      var prev := Revealed(f, es[..|es| - 1]);
      var e := es[|es| - 1];
      if e.isIntersecting then prev[e.target := Shown] else prev
  }

  /** An element ends up shown exactly when it was shown already or some entry reports
      it intersecting; otherwise it keeps its style. */
  lemma {:induction false} RevealedAt(f: seq<Fade>, es: seq<Entry>, i: nat)
    requires Targets(es, |f|) && i < |f|
    ensures Revealed(f, es)[i] == if IntersectsIn(es, i) then Shown else f[i]
    decreases |es|
  {
    if es != [] {
      var init := es[..|es| - 1];
      var e := es[|es| - 1];
      RevealedAt(f, init, i);
      if IntersectsIn(init, i) {
        var k :| 0 <= k < |init| && init[k].target == i && init[k].isIntersecting;
        assert es[k] == init[k];
      }
      if IntersectsIn(es, i) && !(e.target == i && e.isIntersecting) {
        var k :| 0 <= k < |es| && es[k].target == i && es[k].isIntersecting;
        assert init[k] == es[k];
      }
    }
  }

  /** The callback never hides anything: a shown element stays shown, and an element
      that ends up hidden was hidden before. */
  lemma RevealedOnlyGrows(f: seq<Fade>, es: seq<Entry>, i: nat)
    requires Targets(es, |f|) && i < |f|
    ensures f[i] == Shown ==> Revealed(f, es)[i] == Shown
    ensures Revealed(f, es)[i] == Hidden ==> f[i] == Hidden && !IntersectsIn(es, i)
  {
    RevealedAt(f, es, i);
  }

  /** The set of shown elements only grows across successive callbacks. */
  lemma ShownSetGrows(f: seq<Fade>, es1: seq<Entry>, es2: seq<Entry>)
    requires Targets(es1, |f|) && Targets(es2, |f|)
    ensures forall i :: 0 <= i < |f| && f[i] == Shown ==> Revealed(f, es1)[i] == Shown
    ensures forall i :: 0 <= i < |f| && Revealed(f, es1)[i] == Shown ==> Revealed(Revealed(f, es1), es2)[i] == Shown
  {
    forall i | 0 <= i < |f| ensures f[i] == Shown ==> Revealed(f, es1)[i] == Shown {
      RevealedOnlyGrows(f, es1, i);
    }
    forall i | 0 <= i < |f| ensures Revealed(f, es1)[i] == Shown ==> Revealed(Revealed(f, es1), es2)[i] == Shown {
      RevealedOnlyGrows(Revealed(f, es1), es2, i);
    }
  }
}
