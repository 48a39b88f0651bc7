/** The typing effect of the `.typing` element: a cursor over three fixed
    phrases that types one character per tick, waits for a separate hold
    timer, then deletes one character per tick and moves to the next phrase.
    Timers are events: a tick is `Tick`, the hold timer's expiry `HoldFires`. */
module Typing {

  const Phrases: seq<string> := ["Computer Science Student", "Freelance Tutor", "Developer"]
  const TypeSpeed := 90
  const DeleteSpeed := 55

  /** JavaScript `full.slice(0, end)`: a negative end counts from the back,
      and an end past the string is clamped to its length. */
  function SliceTo(full: string, end: int): (t: string)
    ensures t <= full
    ensures end >= 0 ==> |t| == if end < |full| then end else |full|
  {
    var stop := if end < 0 then (if |full| + end < 0 then 0 else |full| + end)
                else if end < |full| then end else |full|;
    full[..stop]
  }

  /** What the element shows: `full.slice(0, Math.max(0, chars))`, the
      first `chars` characters, or all of them once `chars` reaches the end. */
  function Shown(full: string, chars: int): (t: string)
    ensures t <= full
    ensures chars <= 0 ==> t == ""
    ensures 0 <= chars <= |full| ==> |t| == chars
    ensures chars >= |full| ==> t == full
  {
    SliceTo(full, if chars < 0 then 0 else chars)
  }

  /** The closure variables `currentPhraseIndex`, `currentCharIndex` and
      `isDeleting`, with the number of hold timers scheduled and not yet
      fired. */
  datatype Cursor = Cursor(phrase: int, chars: int, deleting: bool, holds: nat)

  const Start := Cursor(0, 0, false, 0)

  predicate InRange(c: Cursor) {
    0 <= c.phrase < |Phrases|
  }

  /** One run of `tick`: step the character count, schedule the hold when a
      phrase has just been typed out, and move to the next phrase when
      deleting has emptied this one. */
  function TickStep(c: Cursor): (r: Cursor)
    requires InRange(c)
    ensures InRange(r)
  {
    var full := Phrases[c.phrase];
    var n := if c.deleting then c.chars - 1 else c.chars + 1;
    var holds := if !c.deleting && n == |full| then c.holds + 1 else c.holds;
    if c.deleting && n == 0 then Cursor((c.phrase + 1) % |Phrases|, n, false, holds)
    else Cursor(c.phrase, n, c.deleting, holds)
  }

  /** The hold timer fires: deleting starts, one pending hold is used up,
      and the phrase and count, hence the text shown, stay as they were. */
  function HoldStep(c: Cursor): (r: Cursor)
    requires c.holds > 0
    ensures r.deleting && r.holds < c.holds
    ensures r.phrase == c.phrase && r.chars == c.chars
  {
    c.(deleting := true, holds := c.holds - 1)
  }

  /** The states the cursor can reach. At most one hold is pending, and only
      while typing with the phrase fully typed (ticks go on during the hold,
      so the count may pass the phrase's length); deleting never runs below
      one character; before the hold the count is below the length. */
  ghost predicate Inv(c: Cursor) {
    InRange(c) && c.chars >= 0 && c.holds <= 1 &&
    (c.holds == 1 ==> !c.deleting && c.chars >= |Phrases[c.phrase]|) &&
    (c.deleting ==> c.chars >= 1) &&
    (!c.deleting && c.holds == 0 ==> c.chars < |Phrases[c.phrase]|)
  }

  lemma StartInv()
    ensures Inv(Start)
  {
  }

  /** A tick keeps the invariant. */
  lemma TickInv(c: Cursor)
    requires Inv(c)
    ensures Inv(TickStep(c))
  {
    assert |Phrases[0]| > 0 && |Phrases[1]| > 0 && |Phrases[2]| > 0;
  }

  /** The hold timer fires only while one is pending, and keeps the invariant. */
  lemma HoldInv(c: Cursor)
    requires Inv(c) && c.holds > 0
    ensures Inv(HoldStep(c))
  {
    assert |Phrases[0]| > 0 && |Phrases[1]| > 0 && |Phrases[2]| > 0;
  }

  /** The phrase changes on a tick exactly when deleting takes the last
      character; it then moves one place forward, wrapping after the last
      phrase, with deleting over and nothing typed. */
  lemma AdvanceRule(c: Cursor)
    requires Inv(c)
    ensures TickStep(c).phrase != c.phrase <==> c.deleting && c.chars == 1
    ensures TickStep(c).phrase != c.phrase ==>
      TickStep(c).phrase == (c.phrase + 1) % 3 && !TickStep(c).deleting && TickStep(c).chars == 0
    ensures TickStep(c).phrase == c.phrase ==> TickStep(c).deleting == c.deleting
  {
  }

  /** The count does pass the phrase's length: every tick taken while the
      hold is pending goes one further, and the element still shows exactly
      the whole phrase. */
  lemma HoldOvershoots(c: Cursor)
    requires Inv(c) && c.holds == 1
    ensures TickStep(c).chars > |Phrases[c.phrase]|
    ensures Shown(Phrases[c.phrase], TickStep(c).chars) == Phrases[c.phrase]
  {
  }

  /** The timer events, in the order they fire. */
  datatype Event = TickFired | HoldFired

  /** Apply one event; a hold expiry with no hold pending cannot happen and
      changes nothing. */
  function Step(c: Cursor, e: Event): (r: Cursor)
    requires InRange(c)
    ensures InRange(r)
  {
    match e
    case TickFired => TickStep(c)
    case HoldFired => if c.holds > 0 then HoldStep(c) else c
  }

  function Run(c: Cursor, events: seq<Event>): (r: Cursor)
    requires InRange(c)
    ensures InRange(r)
    decreases |events|
  {
    if events == [] then c else Run(Step(c, events[0]), events[1..])
  }

  /** Number of steps in a run on which the phrase index changes. */
  function Wraps(c: Cursor, events: seq<Event>): nat
    requires InRange(c)
    decreases |events|
  {
    if events == [] then 0
    else
      var next := Step(c, events[0]);
      (if next.phrase != c.phrase then 1 else 0) + Wraps(next, events[1..])
  }

  /** Number of ticks in a run that take the last character of a phrase
      while deleting. */
  function Deletions(c: Cursor, events: seq<Event>): nat
    requires InRange(c)
    decreases |events|
  {
    if events == [] then 0
    else
      (if events[0] == TickFired && c.deleting && c.chars == 1 then 1 else 0)
        + Deletions(Step(c, events[0]), events[1..])
  }

  /** From a reachable state, the phrase index changes on exactly the ticks
      that complete a deletion: a hold expiry never changes it. */
  lemma {:induction false} WrapsAreDeletions(c: Cursor, events: seq<Event>)
    requires Inv(c)
    ensures Wraps(c, events) == Deletions(c, events)
    decreases |events|
  {
    if events != [] {
      match events[0] {
        case TickFired => TickInv(c); AdvanceRule(c);
        case HoldFired => if c.holds > 0 { HoldInv(c); }
      }
      WrapsAreDeletions(Step(c, events[0]), events[1..]);
    }
  }

  /** Any run keeps the invariant, so what is shown is always a prefix of
      the current phrase and the phrase index stays in range. */
  lemma {:induction false} RunInv(c: Cursor, events: seq<Event>)
    requires Inv(c)
    ensures Inv(Run(c, events))
    decreases |events|
  {
    if events != [] {
      match events[0] {
        case TickFired => TickInv(c);
        case HoldFired => if c.holds > 0 { HoldInv(c); }
      }
      RunInv(Step(c, events[0]), events[1..]);
    }
  }

  /** The phrase index after a run is the starting one advanced by the number
      of steps that changed it, modulo the number of phrases. */
  lemma {:induction false} RunWraps(c: Cursor, events: seq<Event>)
    requires Inv(c)
    ensures Run(c, events).phrase == (c.phrase + Wraps(c, events)) % |Phrases|
    decreases |events|
  {
    if events != [] {
      var next := Step(c, events[0]);
      match events[0] {
        case TickFired => TickInv(c); AdvanceRule(c);
        case HoldFired => if c.holds > 0 { HoldInv(c); }
      }
      RunWraps(next, events[1..]);
      var w := Wraps(next, events[1..]);
      if next.phrase != c.phrase {
        assert next.phrase == (c.phrase + 1) % 3;
        assert (next.phrase + w) % 3 == (c.phrase + 1 + w) % 3;
      }
    }
  }

  /** The phrase index after a run is the starting one advanced by the number
      of completed deletions, modulo the number of phrases. */
  lemma RunPhrase(c: Cursor, events: seq<Event>)
    requires Inv(c)
    ensures Run(c, events).phrase == (c.phrase + Deletions(c, events)) % |Phrases|
  {
    RunWraps(c, events);
    WrapsAreDeletions(c, events);
  }

  /** `k` ticks with no hold expiry among them. */
  function Ticks(k: nat): (events: seq<Event>)
    ensures |events| == k && forall i | 0 <= i < k :: events[i] == TickFired
  {
    seq(k, _ => TickFired)
  }

  /** Running one more event is one more step. */
  lemma {:induction false} RunSnoc(c: Cursor, events: seq<Event>, e: Event)
    requires InRange(c)
    ensures Run(c, events + [e]) == Step(Run(c, events), e)
    decreases |events|
  {
    if events != [] {
      assert (events + [e])[1..] == events[1..] + [e];
      RunSnoc(Step(c, events[0]), events[1..], e);
    }
  }

  /** From page load, `k` ticks type the first `k` characters of the first
      phrase, and the tick that completes it schedules the hold. */
  lemma {:induction false} FirstPhraseTyped(k: nat)
    requires k <= |Phrases[0]|
    ensures Run(Start, Ticks(k)) == Cursor(0, k, false, if k == |Phrases[0]| then 1 else 0)
  {
    if k > 0 {
      FirstPhraseTyped(k - 1);
      assert Ticks(k) == Ticks(k - 1) + [TickFired];
      RunSnoc(Start, Ticks(k - 1), TickFired);
    }
  }

  /** A reachable state whose character count exceeds its phrase's length:
      one tick after the first phrase is complete, before the hold fires. */
  lemma Overshoot()
    ensures var c := Run(Start, Ticks(|Phrases[0]| + 1));
      Inv(c) && c.phrase == 0 && c.chars == |Phrases[0]| + 1 && !c.deleting
  {
    var n := |Phrases[0]|;
    FirstPhraseTyped(n);
    assert Ticks(n + 1) == Ticks(n) + [TickFired];
    RunSnoc(Start, Ticks(n), TickFired);
    StartInv();
    RunInv(Start, Ticks(n + 1));
  }

  /** The `tick`/hold-timer state of the page's typing effect. */
  class Typewriter {
    /** Whether the page has a `.typing` element; without one `tick`
        returns at once and never reschedules itself. */
    const hasTarget: bool
    var phraseIndex: int
    var charIndex: int
    var isDeleting: bool
    /** Hold timers scheduled and not yet fired. */
    var pendingHolds: nat
    /** The element's `textContent`. */
    var text: string
    /** The delay of the tick scheduled last. */
    var delay: int

    function State(): Cursor
      reads this
    {
      Cursor(phraseIndex, charIndex, isDeleting, pendingHolds)
    }

    ghost predicate Valid()
      reads this
    {
      hasTarget ==> Inv(State())
    }

    /** The element shows the current phrase cut at the character count. */
    ghost predicate Shows()
      reads this
      requires Valid() && hasTarget
    {
      text == Shown(Phrases[phraseIndex], charIndex)
    }

    /** Page load: the variables start at zero and `tick` runs once. */
    constructor (hasTarget: bool, initialText: string)
      ensures Valid() && this.hasTarget == hasTarget
      ensures hasTarget ==> State() == TickStep(Start) && Shows() && text == "C" && delay == TypeSpeed
      ensures !hasTarget ==> State() == Start && text == initialText
    {
      this.hasTarget := hasTarget;
      phraseIndex, charIndex, isDeleting, pendingHolds := 0, 0, false, 0;
      text := initialText;
      delay := TypeSpeed;
      new;
      StartInv();
      Tick();
    }

    /** `tick`: one step of the cursor, the element updated from the phrase
        the step started on, and the next tick scheduled at the deleting or
        typing speed. */
    method Tick()
      requires Valid()
      modifies this
      ensures Valid()
      ensures hasTarget ==> State() == TickStep(old(State())) && Shows() && text <= Phrases[phraseIndex]
      ensures hasTarget ==> delay == (if isDeleting then DeleteSpeed else TypeSpeed)
      ensures !hasTarget ==> State() == old(State()) && text == old(text) && delay == old(delay)
    {
      if !hasTarget {
        return;
      }
      TickInv(State());
      var fullText := Phrases[phraseIndex];
      if isDeleting {
        charIndex := charIndex - 1;
      } else {
        charIndex := charIndex + 1;
      }

      text := Shown(fullText, charIndex);

      if !isDeleting && charIndex == |fullText| {
        pendingHolds := pendingHolds + 1;
      }

      if isDeleting && charIndex == 0 {
        isDeleting := false;
        phraseIndex := (phraseIndex + 1) % |Phrases|;
      }

      delay := if isDeleting then DeleteSpeed else TypeSpeed;
    }

    /** The hold timer fires: `isDeleting = true`. The text is untouched. */
    method HoldFires()
      requires Valid() && pendingHolds > 0
      modifies this
      ensures Valid()
      ensures State() == HoldStep(old(State()))
      ensures text == old(text) && delay == old(delay)
      ensures hasTarget && old(Shows()) ==> Shows()
    {
      if hasTarget {
        HoldInv(State());
      }
      isDeleting := true;
      pendingHolds := pendingHolds - 1;
    }
  }
}
