/** The counter screen (app/Tazbih/index.jsx): a tap counter with a reset,
    a three-way feedback mode and a carousel of recitations that wraps
    around at both ends. */
module Tazbih {

  /** The feedback mode behind the header icon. */
  datatype SoundMode = Sound | Vibrate | Silent

  /** What a tap does besides counting. */
  datatype Feedback = TapSound | Vibration | NoFeedback

  /** `switchSoundMode`: sound, then vibrate, then silent, then sound. */
  function NextSoundMode(mode: SoundMode): (next: SoundMode)
    ensures next != mode
  {
    match mode
    case Sound => Vibrate
    case Vibrate => Silent
    case Silent => Sound
  }

  /** The mode after `k` presses of the mode button. */
  function SwitchTimes(mode: SoundMode, k: nat): SoundMode
  {
    if k == 0 then mode else NextSoundMode(SwitchTimes(mode, k - 1))
  }

  /** Three presses of the mode button come back to the starting mode. */
  lemma ThreeSwitchesIdentity(mode: SoundMode)
    ensures NextSoundMode(NextSoundMode(NextSoundMode(mode))) == mode
    ensures NextSoundMode(NextSoundMode(mode)) != mode
  {
  }

  /** The mode cycle has period three: `k` presses return to the starting
      mode exactly when `k` is a multiple of three. */
  lemma {:induction false} SwitchTimesPeriod(mode: SoundMode, k: nat)
    ensures SwitchTimes(mode, k) == SwitchTimes(mode, k % 3)
    ensures SwitchTimes(mode, k) == mode <==> k % 3 == 0
  {
    if k >= 3 {
      SwitchTimesPeriod(mode, k - 3);
      var before := SwitchTimes(mode, k - 3);
      assert SwitchTimes(mode, k - 2) == NextSoundMode(before);
      assert SwitchTimes(mode, k - 1) == NextSoundMode(NextSoundMode(before));
      assert SwitchTimes(mode, k) == NextSoundMode(NextSoundMode(NextSoundMode(before)));
      ThreeSwitchesIdentity(before);
    } else if k == 2 {
      assert SwitchTimes(mode, 1) == NextSoundMode(mode);
      ThreeSwitchesIdentity(mode);
    } else if k == 1 {
      assert SwitchTimes(mode, 1) == NextSoundMode(mode);
    }
  }

  /** The feedback of a tap: the tap sound in sound mode once the sound is
      loaded, a 100 ms vibration in vibrate mode, and nothing otherwise. */
  function TapFeedback(mode: SoundMode, soundLoaded: bool): (feedback: Feedback)
    ensures feedback == TapSound <==> mode == Sound && soundLoaded
    ensures feedback == Vibration <==> mode == Vibrate
  {
    if mode == Sound && soundLoaded then TapSound
    else if mode == Vibrate then Vibration
    else NoFeedback
  }

  /** `handleNextRecite`: `(index + 1) % count`. */
  function NextReciteIndex(index: int, count: int): (next: int)
    requires 0 <= index < count
    ensures 0 <= next < count
    ensures index < count - 1 ==> next == index + 1
    ensures index == count - 1 ==> next == 0
  {
    (index + 1) % count
  }

  /** `handlePreviousRecite`: `count - 1` from the first recitation,
      `index - 1` otherwise. */
  function PreviousReciteIndex(index: int, count: int): (previous: int)
    requires 0 <= index < count
    ensures 0 <= previous < count
    ensures index == 0 ==> previous == count - 1
    ensures index > 0 ==> previous == index - 1
  {
    if index == 0 then count - 1 else index - 1
  }

  /** "Previous" undoes "next" and "next" undoes "previous". */
  lemma ReciteStepsInverse(index: int, count: int)
    requires 0 <= index < count
    ensures PreviousReciteIndex(NextReciteIndex(index, count), count) == index
    ensures NextReciteIndex(PreviousReciteIndex(index, count), count) == index
  {
  }

  /** The recitation after `k` presses of "next". */
  function NextTimes(index: int, count: int, k: nat): (r: int)
    requires 0 <= index < count
    ensures 0 <= r < count
  {
    if k == 0 then index else NextReciteIndex(NextTimes(index, count, k - 1), count)
  }

  /** Up to `count` presses of "next" advance by `k`, wrapping past the
      last recitation to the first, so `count` presses come back to the
      start. */
  lemma {:induction false} NextTimesWraps(index: int, count: int, k: nat)
    requires 0 <= index < count && k <= count
    ensures NextTimes(index, count, k) == if index + k < count then index + k else index + k - count
    ensures k == count ==> NextTimes(index, count, k) == index
  {
    if k > 0 {
      NextTimesWraps(index, count, k - 1);
    }
  }

  /** The counter screen's state. */
  class Counter {
    var counter: int
    var reciteIndex: int
    var soundMode: SoundMode
    const recitationCount: int

    /** The recitation shown is one of the recitations. */
    ghost predicate Valid()
      reads this
    {
      0 <= reciteIndex < recitationCount
    }

    /** The initial state: count 0, first recitation, vibrate mode. The
        recitation list is never empty. */
    constructor (recitationCount: int)
      requires recitationCount > 0
      ensures Valid() && this.recitationCount == recitationCount
      ensures counter == 0 && reciteIndex == 0 && soundMode == Vibrate
    {
      this.recitationCount := recitationCount;
      counter := 0;
      reciteIndex := 0;
      soundMode := Vibrate;
    }

    /** `handleIncrement`: one more, with no cap at the progress ring's
        full mark of 1000, and the tap feedback of the current mode. */
    method Increment(soundLoaded: bool) returns (feedback: Feedback)
      modifies this`counter
      ensures counter == old(counter) + 1
      ensures feedback == TapFeedback(soundMode, soundLoaded)
    {
      counter := counter + 1;
      if soundMode == Sound && soundLoaded {
        feedback := TapSound;
      } else if soundMode == Vibrate {
        feedback := Vibration;
      } else {
        feedback := NoFeedback;
      }
    }

    /** `handleReset`: the count goes back to zero. */
    method Reset()
      modifies this`counter
      ensures counter == 0
    {
      counter := 0;
    }

    /** `switchSoundMode`: the next mode of the cycle. */
    method SwitchSoundMode()
      modifies this`soundMode
      ensures soundMode == NextSoundMode(old(soundMode))
    {
      if soundMode == Sound {
        soundMode := Vibrate;
      } else if soundMode == Vibrate {
        soundMode := Silent;
      } else {
        soundMode := Sound;
      }
    }

    /** `handleNextRecite`: the next recitation, wrapping to the first. */
    method NextRecite()
      requires Valid()
      modifies this`reciteIndex
      ensures Valid()
      ensures reciteIndex == NextReciteIndex(old(reciteIndex), recitationCount)
    {
      reciteIndex := (reciteIndex + 1) % recitationCount;
    }

    /** `handlePreviousRecite`: the previous recitation, wrapping to the
        last. */
    method PreviousRecite()
      requires Valid()
      modifies this`reciteIndex
      ensures Valid()
      ensures reciteIndex == PreviousReciteIndex(old(reciteIndex), recitationCount)
    {
      reciteIndex := if reciteIndex == 0 then recitationCount - 1 else reciteIndex - 1;
    }
  }
}
