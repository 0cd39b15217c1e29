/**
What the keypad driver of kernel/linux_bast/reciva/reciva_keypad_generic.c reports, as a log: key-down and key-up
reports, scans that found no key, and the samples of the row pin while a release is awaited.
 */
module KeyLog {

  /** A key is named by its row pin and its column; the tables that turn it into a key code are not modelled. */
  datatype Key = NoKey | Key(row: nat, column: nat)

  datatype Event = KeyDown(key: Key) | KeyUp(key: Key) | ScanFailed | Sample(released: bool)

  datatype KeyState = Idle | IdentifyButton | ReleasePending | ReleaseDetected

  /** The key most recently reported down. */
  function LastKey(log: seq<Event>): Key {
    if log == [] then NoKey
    else if log[|log| - 1].KeyDown? then log[|log| - 1].key
    else LastKey(log[..|log| - 1])
  }

  function Ups(log: seq<Event>): nat {
    if log == [] then 0 else Ups(log[..|log| - 1]) + if log[|log| - 1].KeyUp? then 1 else 0
  }

  function Failures(log: seq<Event>): nat {
    if log == [] then 0 else Failures(log[..|log| - 1]) + if log[|log| - 1].ScanFailed? then 1 else 0
  }

  /** What was logged after the most recent key-down. */
  function SinceDown(log: seq<Event>): seq<Event> {
    if log == [] || log[|log| - 1].KeyDown? then [] else SinceDown(log[..|log| - 1]) + [log[|log| - 1]]
  }

  /** How many samples in a row, up to the end, found the key released. */
  function Released(log: seq<Event>): nat {
    if log == [] || log[|log| - 1] != Sample(true) then 0 else 1 + Released(log[..|log| - 1])
  }

  /** How many key-ups are due: one for a key that went down, and one more for every scan that found none. */
  function Due(log: seq<Event>): nat {
    Failures(SinceDown(log)) + if LastKey(log) == NoKey then 0 else 1
  }

  /** When e may be logged next. */
  predicate Admissible(log: seq<Event>, e: Event) {
    match e
    case KeyDown(k) => k != NoKey && Ups(SinceDown(log)) == Due(log)
    case KeyUp(k) =>
      && k == LastKey(log) && Ups(SinceDown(log)) + 1 == Due(log)
      && ((log != [] && log[|log| - 1] == ScanFailed) || (Released(log) == 3 && Ups(SinceDown(log)) == 0))
    case ScanFailed => Ups(SinceDown(log)) == Due(log)
    case Sample(_) => LastKey(log) != NoKey && Ups(SinceDown(log)) == Failures(SinceDown(log)) == 0 && Released(log) < 3
  }

  /** Every event of the log was admissible. */
  predicate History(log: seq<Event>) {
    forall i :: 0 <= i < |log| ==> Admissible(log[..i], log[i])
  }

  lemma HistorySnoc(log: seq<Event>, e: Event)
    requires History(log) && Admissible(log, e)
    ensures History(log + [e])
  {
    hide Admissible;
    forall i | 0 <= i < |log + [e]|
      ensures Admissible((log + [e])[..i], (log + [e])[i])
    {
      assert (log + [e])[..i] == log[..i];
      assert log[..|log|] == log;
    }
  }

  /** Where the driver stands after a log. */
  predicate Stands(log: seq<Event>, state: KeyState, key: Key, releases: int) {
    && History(log) && key == LastKey(log)
    && match state
       case Idle => Ups(SinceDown(log)) == Due(log)
       case IdentifyButton => Ups(SinceDown(log)) == Due(log)
       case ReleasePending =>
         key != NoKey && Ups(SinceDown(log)) == Failures(SinceDown(log)) == 0 && releases == Released(log) <= 2
       case ReleaseDetected => Admissible(log, KeyUp(key))
  }

  /** The effect of one more event on everything that is counted. */
  lemma SinceDownSnoc(log: seq<Event>, e: Event)
    ensures SinceDown(log + [e]) == (if e.KeyDown? then [] else SinceDown(log) + [e])
    ensures LastKey(log + [e]) == if e.KeyDown? then e.key else LastKey(log)
    ensures Released(log + [e]) == if e == Sample(true) then Released(log) + 1 else 0
    ensures Ups([]) == Failures([]) == 0
    ensures !e.KeyDown? ==> Ups(SinceDown(log + [e])) == Ups(SinceDown(log)) + if e.KeyUp? then 1 else 0
    ensures !e.KeyDown? ==> Failures(SinceDown(log + [e])) == Failures(SinceDown(log)) + if e.ScanFailed? then 1 else 0
  {
    assert (log + [e])[..|log|] == log;
    if !e.KeyDown? {
      CountsSnoc(SinceDown(log), e);
    }
  }

  lemma CountsSnoc(s: seq<Event>, e: Event)
    ensures Ups(s + [e]) == Ups(s) + if e.KeyUp? then 1 else 0
    ensures Failures(s + [e]) == Failures(s) + if e.ScanFailed? then 1 else 0
  {
    assert (s + [e])[..|s|] == s;
  }

  /** No more than three released samples come in a row: the third one ends the wait. */
  lemma {:induction false} ThreeSamplesEndTheWait(log: seq<Event>)
    requires History(log)
    ensures Released(log) <= 3
  {
    hide Ups, Failures, SinceDown, LastKey;
    if log != [] && log[|log| - 1] == Sample(true) {
      assert log[..|log|] == log && Admissible(log[..|log| - 1], log[|log| - 1]);
    }
  }

  // The steps of the driver.

  lemma KeyFound(log: seq<Event>, key: Key, found: Key, releases: int)
    requires Stands(log, IdentifyButton, key, releases) && found != NoKey
    ensures Stands(log + [KeyDown(found)], ReleasePending, found, 0)
  {
    hide History, SinceDown, Ups, Failures, Released, LastKey;
    HistorySnoc(log, KeyDown(found));
    SinceDownSnoc(log, KeyDown(found));
  }

  lemma NoKeyFound(log: seq<Event>, key: Key, releases: int)
    requires Stands(log, IdentifyButton, key, releases)
    ensures Stands(log + [ScanFailed], ReleaseDetected, key, 0)
  {
    hide History, SinceDown, Ups, Failures, Released, LastKey;
    HistorySnoc(log, ScanFailed);
    SinceDownSnoc(log, ScanFailed);
  }

  lemma Sampled(log: seq<Event>, key: Key, releases: int, released: bool)
    requires Stands(log, ReleasePending, key, releases)
    ensures var n := if released then releases + 1 else 0;
            Stands(log + [Sample(released)], if n > 2 then ReleaseDetected else ReleasePending, key, n)
  {
    hide History, SinceDown, Ups, Failures, Released, LastKey;
    HistorySnoc(log, Sample(released));
    SinceDownSnoc(log, Sample(released));
  }

  lemma KeyReleased(log: seq<Event>, key: Key, releases: int)
    requires Stands(log, ReleaseDetected, key, releases)
    ensures Stands(log + [KeyUp(key)], Idle, key, releases)
  {
    hide History, SinceDown, Ups, Failures, Released, LastKey;
    HistorySnoc(log, KeyUp(key));
    SinceDownSnoc(log, KeyUp(key));
  }

  // ---------------------------------------------------------------- what a history promises

  lemma {:induction false} SinceDownIs(log: seq<Event>, i: nat)
    requires i < |log| && log[i].KeyDown?
    requires forall j :: i < j < |log| ==> !log[j].KeyDown?
    ensures SinceDown(log) == log[i + 1..] && LastKey(log) == log[i].key
  {
    if i < |log| - 1 {
      SinceDownIs(log[..|log| - 1], i);
    }
  }

  /** Between a key-down and the next one there is one key-up, plus one for every scan that found no key. */
  lemma BetweenDowns(log: seq<Event>, i: nat, j: nat)
    requires History(log) && i < j < |log| && log[i].KeyDown? && log[j].KeyDown?
    requires forall k :: i < k < j ==> !log[k].KeyDown?
    ensures Ups(log[i + 1..j]) == 1 + Failures(log[i + 1..j])
    ensures Ups(log[i + 1..j]) == 1 <==> ScanFailed !in log[i + 1..j]
  {
    hide Ups, Failures, Released, LastKey, SinceDown;
    assert Admissible(log[..j], log[j]);
    SinceDownIs(log[..j], i);
    assert log[..j][i + 1..] == log[i + 1..j];
    assert Admissible(log[..i], log[i]);
    NoFailures(log[i + 1..j]);
  }

  lemma {:induction false} NoFailures(s: seq<Event>)
    ensures Failures(s) == 0 <==> ScanFailed !in s
  {
    if s != [] {
      NoFailures(s[..|s| - 1]);
      assert s == s[..|s| - 1] + [s[|s| - 1]];
    }
  }

  lemma {:induction false} ReleasedSamples(log: seq<Event>, i: nat)
    requires |log| - Released(log) <= i < |log|
    ensures log[i] == Sample(true)
  {
    if i < |log| - 1 { ReleasedSamples(log[..|log| - 1], i); }
  }

  lemma {:induction false} ReleasedBound(log: seq<Event>, i: nat)
    requires i < |log| && log[i] != Sample(true)
    ensures Released(log) < |log| - i
  {
    if i < |log| - 1 { ReleasedBound(log[..|log| - 1], i); }
  }

  /** A key-up names the key that last went down; unless a scan just failed, three released samples precede it. */
  lemma UpsAreEarned(log: seq<Event>, i: nat, j: nat)
    requires History(log) && i < j < |log| && log[i].KeyDown? && log[j].KeyUp?
    requires forall k :: i < k < j ==> !log[k].KeyDown?
    ensures log[j].key == log[i].key
    ensures log[j - 1] != ScanFailed ==>
              && j >= i + 4 && log[j - 3] == log[j - 2] == log[j - 1] == Sample(true)
              && Ups(log[i + 1..j]) == 0
  {
    hide History, Due, Ups, Failures, Released, LastKey, SinceDown;
    var before := log[..j];
    assert Admissible(before, log[j]) by { HistoryAt(log, j); }
    SinceDownIs(before, i);
    assert before[i + 1..] == log[i + 1..j];
    if log[j - 1] != ScanFailed {
      ReleasedBound(before, i);
      ReleasedSamples(before, j - 1);
      ReleasedSamples(before, j - 2);
      ReleasedSamples(before, j - 3);
    }
  }

  lemma HistoryAt(log: seq<Event>, j: nat)
    requires History(log) && j < |log|
    ensures Admissible(log[..j], log[j])
  {
  }
}
