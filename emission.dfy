/** The decision logic of `check_low_emission`: the lookup tries the
    headless mode and then the headful one, each attempt ending in one of a
    few observable outcomes; the browser session itself is not modelled. */
module Emission {

  /** What one mode attempt observed. */
  datatype Attempt =
    | Failed             // WebDriverException, NoSuchElementException or TimeoutException before a verdict
    | Alert(text: string) // an alert appeared within the wait window, with this text
    | NoAlert            // no alert within the wait window
    | Raised             // any other exception: it escapes the loop (after the session is closed)

  /** The value `check_low_emission` produces: a classification, or an
      exception that escapes to its caller. */
  datatype Verdict = Classified(low: bool) | Escaped

  /** `HEADLESS` in the configuration block. */
  const Headless: bool := true

  /** The modes tried, in order: `for attempt_headless in (HEADLESS, False)`. */
  const Modes: seq<bool> := [Headless, false]

  /** The alert text that means "no vehicle information found". */
  const NotFoundPhrase: string :=
    "\U{c870}\U{d68c} \U{cc28}\U{b7c9}\U{c815}\U{bcf4}\U{ac00} \U{c5c6}\U{c2b5}\U{b2c8}\U{b2e4}"

  /** `phrase` occurs in `text` starting at position `i`. */
  ghost predicate OccursAt(phrase: string, text: string, i: int) {
    0 <= i <= |text| - |phrase| && text[i..i + |phrase|] == phrase
  }

  /** Python's `phrase in text`: some slice of `text` equals `phrase`. */
  ghost predicate Occurs(phrase: string, text: string) {
    exists i :: OccursAt(phrase, text, i)
  }

  /** Substring search, scanning start positions from the left. */
  function Contains(text: string, phrase: string): (b: bool)
    ensures b <==> Occurs(phrase, text)
    decreases |text|
  {
    if |text| < |phrase| then
      false
    else if text[..|phrase|] == phrase then
      assert OccursAt(phrase, text, 0);
      true
    else
      var r := Contains(text[1..], phrase);
      if r then
        assert Occurs(phrase, text) by {
          var i :| OccursAt(phrase, text[1..], i);
          var here, there := text[i + 1..i + 1 + |phrase|], text[1..][i..i + |phrase|];
          forall q | 0 <= q < |phrase| ensures here[q] == there[q] {}
          assert here == there;
          assert OccursAt(phrase, text, i + 1);
        }
        true
      else
        assert forall i :: OccursAt(phrase, text, i) ==> i == 0 || OccursAt(phrase, text[1..], i - 1) by {
          forall i | OccursAt(phrase, text, i) && i != 0 ensures OccursAt(phrase, text[1..], i - 1) {
            var here, there := text[i..i + |phrase|], text[1..][i - 1..i - 1 + |phrase|];
            forall q | 0 <= q < |phrase| ensures here[q] == there[q] {}
            assert here == there;
          }
        }
        false
  }

  /** The verdict of an attempt that did not fail, the branches at
      parking_system/app.py:113-126. */
  function Decide(a: Attempt): (v: Verdict)
    requires !a.Failed?
    ensures v.Escaped? <==> a.Raised?
    ensures v == Classified(true) <==> a.NoAlert? || (a.Alert? && !Occurs(NotFoundPhrase, a.text))
  {
    match a
    case Alert(text) => Classified(!Contains(text, NotFoundPhrase))
    case NoAlert => Classified(true)
    case Raised => Escaped
  }

  /** The loop over modes with its early returns: the first attempt that
      does not fail decides; when every attempt fails the answer is `false`.
      So an escaped exception was raised by some attempt, and a positive
      answer needs some attempt that saw no alert or an alert without the
      "no vehicle information" phrase. */
  function Classify(outcomes: seq<Attempt>): (v: Verdict)
    ensures v.Escaped? ==> exists i :: 0 <= i < |outcomes| && outcomes[i].Raised?
    ensures v == Classified(true) ==>
      exists i :: 0 <= i < |outcomes| &&
        (outcomes[i].NoAlert? || (outcomes[i].Alert? && !Occurs(NotFoundPhrase, outcomes[i].text)))
  {
    if outcomes == [] then Classified(false)
    else if outcomes[0].Failed? then
      var v := Classify(outcomes[1..]);
      assert forall i :: 0 <= i < |outcomes[1..]| ==> outcomes[1..][i] == outcomes[i + 1];
      v
    else Decide(outcomes[0])
  }

  /** How many attempts the loop starts before it returns: at least one,
      and never more than there are modes. */
  function AttemptsMade(outcomes: seq<Attempt>): (n: nat)
    ensures n <= |outcomes|
    ensures outcomes != [] ==> n >= 1
  {
    if outcomes == [] then 0
    else if outcomes[0].Failed? then 1 + AttemptsMade(outcomes[1..])
    else 1
  }

  /** `check_low_emission` as the loop it is: `outcomes[i]` is what the
      attempt in mode `Modes[i]` would observe. Returns the verdict and the
      number of attempts made (an attempt whose browser fails to start opens
      no session but still counts). */
  method CheckLowEmission(outcomes: seq<Attempt>) returns (v: Verdict, tried: nat)
    requires |outcomes| == |Modes|
    ensures v == Classify(outcomes)
    ensures tried == AttemptsMade(outcomes) <= |Modes|
  {
    tried := 0;
    for i := 0 to |Modes|
      invariant tried == i
      invariant forall j :: 0 <= j < i ==> outcomes[j].Failed?
      invariant Classify(outcomes) == Classify(outcomes[i..])
      invariant AttemptsMade(outcomes) == i + AttemptsMade(outcomes[i..])
    {
      tried := tried + 1;
      match outcomes[i]
      case Failed =>
      case Alert(text) =>
        v := Classified(!Contains(text, NotFoundPhrase));
        return;
      case NoAlert =>
        v := Classified(true);
        return;
      case Raised =>
        v := Escaped;
        return;
    }
    v := Classified(false);
  }

  /** The `low` column value `add_car` stores: 1 for a positive
      classification, 0 for a negative one or for an escaped exception. */
  function LowEmissionFlag(v: Verdict): (flag: nat)
    ensures flag <= 1
    ensures flag == 1 <==> v == Classified(true)
  {
    match v
    case Classified(low) => if low then 1 else 0
    case Escaped => 0
  }

  /** The first attempt that does not fail decides the verdict, and it is
      the last attempt made. */
  lemma {:induction false} FirstDecisiveAttempt(outcomes: seq<Attempt>, i: nat)
    requires i < |outcomes| && !outcomes[i].Failed?
    requires forall j :: 0 <= j < i ==> outcomes[j].Failed?
    ensures Classify(outcomes) == Decide(outcomes[i])
    ensures AttemptsMade(outcomes) == i + 1
  {
    if i > 0 {
      FirstDecisiveAttempt(outcomes[1..], i - 1);
    }
  }

  /** Fail-closed: when every attempt fails the answer is `false`, after
      trying every mode. */
  lemma {:induction false} AllFailedIsNegative(outcomes: seq<Attempt>)
    requires forall j :: 0 <= j < |outcomes| ==> outcomes[j].Failed?
    ensures Classify(outcomes) == Classified(false)
    ensures AttemptsMade(outcomes) == |outcomes|
  {
    if outcomes != [] {
      AllFailedIsNegative(outcomes[1..]);
    }
  }

  /** Without an exception outside the caught set the lookup always
      produces a classification, and it is positive exactly when some attempt
      succeeded and the first successful one saw no alert or an alert without
      the "no vehicle information" phrase. */
  lemma {:induction false} ClassifyCharacterised(outcomes: seq<Attempt>)
    requires forall j :: 0 <= j < |outcomes| ==> !outcomes[j].Raised?
    ensures Classify(outcomes).Classified?
    ensures Classify(outcomes).low <==>
      exists i :: 0 <= i < |outcomes| && !outcomes[i].Failed?
        && (forall j :: 0 <= j < i ==> outcomes[j].Failed?)
        && (outcomes[i].NoAlert? || !Occurs(NotFoundPhrase, outcomes[i].text))
  {
    if outcomes != [] {
      ClassifyCharacterised(outcomes[1..]);
      if outcomes[0].Failed? {
        if Classify(outcomes).low {
          var i :| 0 <= i < |outcomes[1..]| && !outcomes[1..][i].Failed?
            && (forall j :: 0 <= j < i ==> outcomes[1..][j].Failed?)
            && (outcomes[1..][i].NoAlert? || !Occurs(NotFoundPhrase, outcomes[1..][i].text));
          assert forall j :: 0 <= j < i + 1 ==> outcomes[j].Failed? by {
            forall j | 0 <= j < i + 1 ensures outcomes[j].Failed? {
              if j > 0 { assert outcomes[j] == outcomes[1..][j - 1]; }
            }
          }
          assert outcomes[i + 1] == outcomes[1..][i];
        } else {
          forall i | 0 <= i < |outcomes| && !outcomes[i].Failed?
              && (forall j :: 0 <= j < i ==> outcomes[j].Failed?)
            ensures !(outcomes[i].NoAlert? || !Occurs(NotFoundPhrase, outcomes[i].text))
          {
            assert i > 0;
            assert outcomes[1..][i - 1] == outcomes[i];
            assert forall j :: 0 <= j < i - 1 ==> outcomes[1..][j] == outcomes[j + 1];
          }
        }
      }
    }
  }

  /** The scenario of a plate whose first (headless) attempt times out and
      whose second attempt shows the "no vehicle information" alert. */
  lemma SecondModeNotFoundScenario()
    ensures Classify([Failed, Alert(NotFoundPhrase)]) == Classified(false)
    ensures AttemptsMade([Failed, Alert(NotFoundPhrase)]) == 2
  {
    var o := [Failed, Alert(NotFoundPhrase)];
    assert o[1..] == [Alert(NotFoundPhrase)];
    assert NotFoundPhrase[..|NotFoundPhrase|] == NotFoundPhrase;
  }
}
