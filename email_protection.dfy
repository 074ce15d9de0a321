/** `initEmailProtection` of js/script.js: the contact address is kept reversed in
    the script, revealed into the `#email-link` element only on a trusted click, and
    copied to the clipboard by listeners added after each reveal. Timers and the
    clipboard promise are events of their own; their durations are not modelled. */
module EmailProtection {

  /** `s.split('').reverse().join('')`. JavaScript splits into UTF-16 code units and
      a Dafny string holds Unicode scalar values, so the two agree on strings without
      astral characters, such as the ASCII literals of the script. */
  function Reverse(s: string): (r: string)
    ensures |r| == |s|
    decreases |s|
  {
    if s == [] then [] else Reverse(s[1..]) + [s[0]]
  }

  /** Position `i` of the reversal holds the character at the mirrored position. */
  lemma {:induction false} ReverseAt(s: string, i: nat)
    requires i < |s|
    ensures Reverse(s)[i] == s[|s| - 1 - i]
    decreases |s|
  {
    if i < |s| - 1 {
      ReverseAt(s[1..], i);
    }
  }

  /** Reversing twice gives back the original: the obfuscation loses nothing. */
  lemma ReverseInvolutive(s: string)
    ensures Reverse(Reverse(s)) == s
  {
    forall i | 0 <= i < |s| ensures Reverse(Reverse(s))[i] == s[i] {
      ReverseAt(Reverse(s), i);
      ReverseAt(s, |s| - 1 - i);
    }
  }

  /** The two literals of the script, each the reverse of its part of the address. */
  const UserPart := "ofni"
  const DomainPart := "moc.sqerfytrid"

  /** The address rebuilt from the reversed user and domain parts. */
  function Decode(user: string, domain: string): (email: string)
    ensures |email| == |user| + 1 + |domain|
    ensures email[|user|] == '@'
    ensures email[..|user|] == Reverse(user) && email[|user| + 1..] == Reverse(domain)
  {
    Reverse(user) + "@" + Reverse(domain)
  }

  /** The href the reveal writes into the link. */
  function Mailto(email: string): (href: string)
    ensures |href| == |email| + 7 && href[..7] == "mailto:" && href[7..] == email
  {
    "mailto:" + email
  }

  lemma UserDecodes(u: string)
    requires u == "ofni"
    ensures Reverse(u) == "info"
  {
    forall i | 0 <= i < 4 ensures Reverse(u)[i] == "info"[i] {
      ReverseAt(u, i);
    }
  }

  lemma DomainDecodes(d: string)
    requires d == "moc.sqerfytrid"
    ensures Reverse(d) == "dirtyfreqs.com"
  {
    forall i | 0 <= i < 14 ensures Reverse(d)[i] == "dirtyfreqs.com"[i] {
      ReverseAt(d, i);
    }
  }

  /** The literals decode to the site's contact address. */
  lemma AddressIs(u: string, d: string)
    requires u == "ofni" && d == "moc.sqerfytrid"
    ensures Decode(u, d) == "info@dirtyfreqs.com"
    ensures Mailto(Decode(u, d)) == "mailto:info@dirtyfreqs.com"
  {
    UserDecodes(u);
    DomainDecodes(d);
  }

  const RevealPrompt := "Click to reveal email"
  const HoverPrompt := "Click to show contact email"
  const CopiedNotice := "Email copied!"

  /** The inline `pointer-events` and `cursor` styles of the link. */
  datatype PointerEvents = PointerUnset | PointerNone | PointerAuto
  datatype Cursor = CursorUnset | CursorText | CursorPointer

  /** The decoded address the handlers close over, whether the browser offers
      `navigator.clipboard`, the link's text and href, its two inline styles, how many copy listeners it
      carries, how many 100 ms "attach copy listener" timers are pending, how many
      clipboard writes are still unsettled, and the labels that the pending 2000 ms
      revert timers will restore, in the order they fire. */
  datatype EmailState = EmailState(
    email: string,
    clipboardApi: bool,
    text: string,
    href: string,
    pointer: PointerEvents,
    cursor: Cursor,
    copyListeners: nat,
    pendingEnables: nat,
    pendingCopies: nat,
    reverts: seq<string>)

  /** The state right after `initEmailProtection` ran on a link from the markup. */
  function Initial(email: string, clipboardApi: bool, text: string, href: string): (s: EmailState)
    ensures s.email == email && s.clipboardApi == clipboardApi && s.text == text && s.href == href
    ensures s.pointer == PointerUnset && s.cursor == CursorUnset
    ensures s.copyListeners == 0 && s.pendingEnables == 0 && s.pendingCopies == 0 && s.reverts == []
  {
    EmailState(email, clipboardApi, text, href, PointerUnset, CursorUnset, 0, 0, 0, [])
  }

  /** A click on the link. The reveal listener (never removed) writes the address
      into the text and href and schedules one more copy listener, but only for a
      trusted event; each copy listener already attached starts one clipboard write,
      trusted or not. Without `navigator.clipboard` the call `writeText` throws before
      any promise exists, so a copy listener then does nothing at all. */
  function Click(s: EmailState, trusted: bool): (r: EmailState)
    ensures trusted ==> r.text == s.email && r.href == Mailto(s.email)
    ensures trusted ==> r.pointer == PointerNone && r.cursor == CursorText
    ensures trusted ==> r.pendingEnables == s.pendingEnables + 1
    ensures !trusted ==> r.text == s.text && r.href == s.href && r.pointer == s.pointer && r.cursor == s.cursor
    ensures !trusted ==> r.pendingEnables == s.pendingEnables
    ensures r.email == s.email && r.clipboardApi == s.clipboardApi
    ensures r.copyListeners == s.copyListeners && r.reverts == s.reverts
    ensures r.pendingCopies == s.pendingCopies + (if s.clipboardApi then s.copyListeners else 0)
  {
    var revealed :=
      if trusted then s.(text := s.email, href := Mailto(s.email), pointer := PointerNone,
                         cursor := CursorText, pendingEnables := s.pendingEnables + 1)
      else s;
    revealed.(pendingCopies := revealed.pendingCopies + (if s.clipboardApi then s.copyListeners else 0))
  }

  /** A 100 ms timer fires: one more copy listener is attached and the link is
      clickable again. Without a pending timer nothing happens. */
  function EnableFires(s: EmailState): (r: EmailState)
    ensures s.pendingEnables > 0 ==> r.copyListeners == s.copyListeners + 1 && r.pendingEnables == s.pendingEnables - 1
    ensures s.pendingEnables > 0 ==> r.pointer == PointerAuto && r.cursor == CursorPointer
    ensures s.pendingEnables == 0 ==> r == s
    ensures r.email == s.email && r.clipboardApi == s.clipboardApi
    ensures r.text == s.text && r.href == s.href && r.reverts == s.reverts && r.pendingCopies == s.pendingCopies
  {
    if s.pendingEnables == 0 then s
    else s.(copyListeners := s.copyListeners + 1, pendingEnables := s.pendingEnables - 1,
            pointer := PointerAuto, cursor := CursorPointer)
  }

  /** A clipboard write settles. Whether the asynchronous write succeeded or the
      fallback copy ran, the text becomes the copied notice and a revert timer is
      scheduled to restore the text shown at that moment. */
  function CopySettles(s: EmailState, succeeded: bool): (r: EmailState)
    ensures s.pendingCopies > 0 ==> r.text == CopiedNotice && r.reverts == s.reverts + [s.text]
    ensures s.pendingCopies > 0 ==> r.pendingCopies == s.pendingCopies - 1
    ensures s.pendingCopies == 0 ==> r == s
    ensures r.email == s.email && r.clipboardApi == s.clipboardApi && r.href == s.href
    ensures r.pointer == s.pointer && r.cursor == s.cursor
    ensures r.copyListeners == s.copyListeners && r.pendingEnables == s.pendingEnables
  {
    if s.pendingCopies == 0 then s
    else s.(text := CopiedNotice, reverts := s.reverts + [s.text], pendingCopies := s.pendingCopies - 1)
  }

  /** The earliest pending 2000 ms revert timer fires and restores its text. */
  function RevertFires(s: EmailState): (r: EmailState)
    ensures s.reverts != [] ==> r.text == s.reverts[0] && r.reverts == s.reverts[1..]
    ensures s.reverts == [] ==> r == s
    ensures r.email == s.email && r.clipboardApi == s.clipboardApi && r.href == s.href
    ensures r.pointer == s.pointer && r.cursor == s.cursor
    ensures r.copyListeners == s.copyListeners && r.pendingEnables == s.pendingEnables
    ensures r.pendingCopies == s.pendingCopies
  {
    if s.reverts == [] then s else s.(text := s.reverts[0], reverts := s.reverts[1..])
  }

  /** Mouse-enter: the hidden prompt switches to its hover wording; any other text stays as it is. */
  function HoverEnter(text: string): (r: string)
    ensures text == RevealPrompt ==> r == HoverPrompt
    ensures text != RevealPrompt ==> r == text
  {
    if text == RevealPrompt then HoverPrompt else text
  }

  /** Mouse-leave: the hover wording switches back; any other text stays as it is. */
  function HoverLeave(text: string): (r: string)
    ensures text == HoverPrompt ==> r == RevealPrompt
    ensures text != HoverPrompt ==> r == text
  {
    if text == HoverPrompt then RevealPrompt else text
  }

  /** Entering then leaving the hidden prompt restores it. */
  lemma HoverRoundTrip()
    ensures HoverLeave(HoverEnter(RevealPrompt)) == RevealPrompt
  {
  }

  /** Hover only swaps the two prompts: the revealed address and the copied notice
      are left alone. */
  lemma HoverKeepsOtherTexts(text: string)
    requires text != RevealPrompt && text != HoverPrompt
    ensures HoverEnter(text) == text && HoverLeave(text) == text
  {
  }

  /** One copy followed by its revert timer shows the notice and then restores the
      text shown before, whichever copy path ran. */
  lemma CopyThenRevertRestores(s: EmailState, succeeded: bool)
    requires s.pendingCopies > 0 && s.reverts == []
    ensures CopySettles(s, succeeded).text == CopiedNotice
    ensures RevertFires(CopySettles(s, succeeded)).text == s.text
    ensures RevertFires(CopySettles(s, succeeded)).reverts == []
  {
  }

  /** Two copies that settle before the first revert fires leave the notice on
      screen for good: the second copy saved the notice itself as its text. */
  lemma OverlappingCopiesKeepNotice(s: EmailState)
    requires s.pendingCopies >= 2 && s.reverts == []
    ensures RevertFires(RevertFires(CopySettles(CopySettles(s, true), true))).text == CopiedNotice
  {
  }

  /** Every event the link reacts to. */
  datatype EmailEvent =
    | Clicked(trusted: bool)
    | EnableTimer
    | CopySettled(succeeded: bool)
    | RevertTimer
    | MouseEntered
    | MouseLeft

  function Apply(s: EmailState, e: EmailEvent): EmailState {
    match e
    case Clicked(trusted) => Click(s, trusted)
    case EnableTimer => EnableFires(s)
    case CopySettled(succeeded) => CopySettles(s, succeeded)
    case RevertTimer => RevertFires(s)
    case MouseEntered => s.(text := HoverEnter(s.text))
    case MouseLeft => s.(text := HoverLeave(s.text))
  }

  function Run(s: EmailState, es: seq<EmailEvent>): EmailState
    decreases |es|
  {
    if es == [] then s else Run(Apply(s, es[0]), es[1..])
  }

  function TrustedClicks(es: seq<EmailEvent>): nat
    decreases |es|
  {
    if es == [] then 0 else (if es[0] == Clicked(true) then 1 else 0) + TrustedClicks(es[1..])
  }

  /** Nothing on the page shows the address: not the text, not the href, not a
      text a revert timer will restore. */
  predicate Concealed(s: EmailState) {
    s.text != s.email && s.href != Mailto(s.email) && s.email !in s.reverts
  }

  /** The address differs from every fixed text the handlers write. */
  predicate Distinguishable(email: string) {
    email != CopiedNotice && email != RevealPrompt && email != HoverPrompt
  }

  lemma AddressDistinguishable(u: string, d: string)
    requires u == "ofni" && d == "moc.sqerfytrid"
    ensures Distinguishable(Decode(u, d))
  {
    AddressIs(u, d);
  }

  /** Only a trusted click reveals the address: from a concealed state, any run of
      events without one leaves it concealed. */
  lemma {:induction false} NoRevealWithoutTrustedClick(s: EmailState, es: seq<EmailEvent>)
    requires Distinguishable(s.email) && Concealed(s) && TrustedClicks(es) == 0
    ensures Concealed(Run(s, es))
    decreases |es|
  {
    if es != [] {
      var t := Apply(s, es[0]);
      assert Concealed(t) by {
        if es[0].RevertTimer? && s.reverts != [] {
          assert s.reverts[0] in s.reverts;
        }
        if es[0].CopySettled? && s.pendingCopies > 0 {
          assert t.reverts == s.reverts + [s.text];
        }
      }
      NoRevealWithoutTrustedClick(t, es[1..]);
    }
  }

  /** Each trusted click eventually adds exactly one copy listener: attached and
      still-scheduled listeners grow by the number of trusted clicks, and nothing
      else adds or removes one. */
  lemma {:induction false} ListenersCountTrustedClicks(s: EmailState, es: seq<EmailEvent>)
    ensures Run(s, es).copyListeners + Run(s, es).pendingEnables
         == s.copyListeners + s.pendingEnables + TrustedClicks(es)
    decreases |es|
  {
    if es != [] {
      ListenersCountTrustedClicks(Apply(s, es[0]), es[1..]);
    }
  }

  /** Nothing shows the copied notice or will restore it. */
  predicate NoNotice(s: EmailState) {
    s.text != CopiedNotice && CopiedNotice !in s.reverts
  }

  /** Without `navigator.clipboard` the notice never appears: every copy listener
      throws before a promise exists, so neither the write nor the fallback runs. */
  lemma {:induction false} NoticeNeedsClipboard(s: EmailState, es: seq<EmailEvent>)
    requires !s.clipboardApi && s.pendingCopies == 0
    requires Distinguishable(s.email) && NoNotice(s)
    ensures NoNotice(Run(s, es))
    decreases |es|
  {
    if es != [] {
      var t := Apply(s, es[0]);
      assert NoNotice(t) by {
        if es[0].RevertTimer? && s.reverts != [] {
          assert s.reverts[0] in s.reverts;
        }
      }
      NoticeNeedsClipboard(t, es[1..]);
    }
  }

  /** The `#email-link` element with the listeners `initEmailProtection` installs.
      A page without the element never constructs one. */
  class EmailLink {
    const email: string
    const clipboardApi: bool
    var text: string
    var href: string
    var pointer: PointerEvents
    var cursor: Cursor
    var copyListeners: nat
    var pendingEnables: nat
    var pendingCopies: nat
    var reverts: seq<string>

    function State(): EmailState
      reads this
    {
      EmailState(email, clipboardApi, text, href, pointer, cursor, copyListeners, pendingEnables, pendingCopies, reverts)
    }

    constructor (clipboardApi: bool, initialText: string, initialHref: string)
      ensures State() == Initial("info@dirtyfreqs.com", clipboardApi, initialText, initialHref)
    {
      var user, domain := UserPart, DomainPart;
      AddressIs(user, domain);
      email := Decode(user, domain);
      this.clipboardApi := clipboardApi;
      text, href := initialText, initialHref;
      pointer, cursor := PointerUnset, CursorUnset;
      copyListeners, pendingEnables, pendingCopies := 0, 0, 0;
      reverts := [];
    }

    /** The click listeners, in the order they were added: first the reveal, then
        each copy listener. */
    method OnClick(trusted: bool)
      modifies this
      ensures State() == Click(old(State()), trusted)
    {
      if trusted {
        text := email;
        href := Mailto(email);
        pointer := PointerNone;
        cursor := CursorText;
        pendingEnables := pendingEnables + 1;
      }
      // every copy listener attached so far starts one clipboard write, or throws
      // at once when there is no clipboard API
      if clipboardApi {
        pendingCopies := pendingCopies + copyListeners;
      }
    }

    method OnEnableTimer()
      modifies this
      ensures State() == EnableFires(old(State()))
    {
      if pendingEnables > 0 {
        copyListeners := copyListeners + 1;
        pendingEnables := pendingEnables - 1;
        pointer := PointerAuto;
        cursor := CursorPointer;
      }
    }

    method OnCopySettled(succeeded: bool)
      modifies this
      ensures State() == CopySettles(old(State()), succeeded)
    {
      if pendingCopies > 0 {
        var originalText := text;
        text := CopiedNotice;
        reverts := reverts + [originalText];
        pendingCopies := pendingCopies - 1;
      }
    }

    method OnRevertTimer()
      modifies this
      ensures State() == RevertFires(old(State()))
    {
      if reverts != [] {
        text := reverts[0];
        reverts := reverts[1..];
      }
    }

    method OnMouseEnter()
      modifies this
      ensures State() == old(State()).(text := HoverEnter(old(text)))
    {
      if text == RevealPrompt {
        text := HoverPrompt;
      }
    }

    method OnMouseLeave()
      modifies this
      ensures State() == old(State()).(text := HoverLeave(old(text)))
    {
      if text == HoverPrompt {
        text := RevealPrompt;
      }
    }
  }
}
