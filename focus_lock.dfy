/** The popup's lock logic (FocusLock.tsx, without the rendering): validating
    the form, starting the lock, the once-per-second countdown, unlocking,
    restoring a running lock from storage, and the `m: ss` display. */
module FocusLock {
  import opened Chrome
  import opened JsText

  const MissingInputError: string := "Please enter both URL and duration."
  const InvalidDurationError: string := "Please enter a valid duration in minutes"

  /** What handleLock's two guards make of the form. */
  datatype Checked = Rejected(message: string) | Accepted(minutes: int)

  /** The guards of handleLock: both fields filled in, then a positive
      `parseInt` of the duration. */
  function CheckInput(url: string, duration: string): (r: Checked)
    ensures r == Rejected(MissingInputError) <==> url == "" || duration == ""
    ensures r == Rejected(InvalidDurationError) <==>
      url != "" && duration != "" && (ParseInt(duration).None? || ParseInt(duration).value <= 0)
    ensures r.Accepted? ==> r.minutes > 0 && ParseInt(duration) == Some(r.minutes)
  {
    if url == "" || duration == "" then Rejected(MissingInputError)
    else match ParseInt(duration)
      case None => Rejected(InvalidDurationError)
      case Some(m) => if m <= 0 then Rejected(InvalidDurationError) else Accepted(m)
  }

  /** Every positive whole number typed into the duration field is accepted as
      that many minutes, whatever non-digit text follows it ("30", "30.5"). */
  lemma AcceptsPositiveNumeral(url: string, n: nat, rest: string)
    requires url != "" && n > 0
    requires rest == [] || !IsDigit(rest[0])
    ensures CheckInput(url, NatToString(n) + rest) == Accepted(n)
  {
    ParseIntOfNumeral(n, rest);
  }

  /** Zero and negative durations are refused with the invalid-duration message. */
  lemma RejectsNonPositive(url: string, n: int)
    requires url != "" && n <= 0
    ensures CheckInput(url, IntToString(n)) == Rejected(InvalidDurationError)
  {
    ParseIntOfIntToString(n);
  }

  /** Lines 79-80: `duration * 60 * 1000 - (now - startTime)`. */
  function RemainingMs(d: LockData, now: int): (ms: int)
    ensures ms == LockEndTime(d) - now
    ensures ms > 0 <==> now < LockEndTime(d)
  {
    d.duration * 60 * 1000 - (now - d.startTime)
  }

  /** Lines 78-86: the number of seconds the restore effect puts on the
      countdown, or None when it leaves the popup alone. */
  function RestoredSeconds(st: Storage, now: int): (r: Option<int>)
    ensures r.Some? <==> ReadLock(st).Some? && now < LockEndTime(ReadLock(st).value)
    ensures r.Some? ==>
      var left := LockEndTime(ReadLock(st).value) - now;
      r.value >= 0 && r.value * 1000 <= left < (r.value + 1) * 1000
  {
    match ReadLock(st)
    case None => None
    case Some(d) =>
      var ms := RemainingMs(d, now);
      if ms > 0 then Some(ms / 1000) else None
  }

  /** JavaScript's `%` on a positive divisor: the remainder keeps the sign of the dividend. */
  function JsRemainder(a: int, b: int): (r: int)
    requires b > 0
    ensures a >= 0 ==> 0 <= r < b && a == (a / b) * b + r
    ensures a < 0 ==> -b < r <= 0 && r == a + ((-a) / b) * b
  {
    if a >= 0 then a % b else -((-a) % b)
  }

  /** formatTime: `Math.floor(s / 60)`, then ": ", then `s % 60` padded to two
      characters with "0". */
  function FormatTime(seconds: int): (r: string)
    ensures seconds >= 0 ==> |r| >= 5 && r[..|r| - 2] == NatToString(seconds / 60) + ": "
  {
    IntToString(seconds / 60) + ": " + PadStart2(IntToString(JsRemainder(seconds, 60)))
  }

  lemma PadSeconds(r: nat)
    requires r < 60
    ensures PadStart2(NatToString(r)) == [DigitChar(r / 10), DigitChar(r % 10)]
  {
    if r >= 10 {
      assert NatToString(r) == NatToString(r / 10) + [DigitChar(r % 10)];
    }
  }

  /** For a non-negative count the display is the minutes in decimal, ": ",
      and exactly two digits of seconds, and these give back the count. */
  lemma FormatTimeDigits(s: nat)
    ensures FormatTime(s) == NatToString(s / 60) + ": " + [DigitChar(s % 60 / 10), DigitChar(s % 60 % 10)]
    ensures (s / 60) * 60 + (s % 60 / 10) * 10 + s % 60 % 10 == s
    ensures s % 60 < 60
  {
    PadSeconds(s % 60);
  }

  /** Distinct non-negative counts are displayed differently. */
  lemma FormatTimeInjective(a: nat, b: nat)
    requires FormatTime(a) == FormatTime(b)
    ensures a == b
  {
    FormatTimeDigits(a);
    FormatTimeDigits(b);
    var fa, fb := FormatTime(a), FormatTime(b);
    var ma, mb := NatToString(a / 60), NatToString(b / 60);
    assert |fa| == |ma| + 4 && |fb| == |mb| + 4;
    assert fa[..|ma|] == ma && fb[..|mb|] == mb;
    NatToStringInjective(a / 60, b / 60);
    assert fa[|fa| - 2] == DigitChar(a % 60 / 10) && fb[|fb| - 2] == DigitChar(b % 60 / 10);
    assert fa[|fa| - 1] == DigitChar(a % 60 % 10) && fb[|fb| - 1] == DigitChar(b % 60 % 10);
  }

  /** The popup's React state and the part of chrome.storage.local it touches. */
  class Popup {
    var url: string
    var duration: string
    var isLocked: bool
    var remainingTime: int
    var error: string
    var storage: Storage
    /** The START_LOCK messages sent to the background worker, oldest first. */
    var sent: seq<LockData>

    /** The countdown never shows a negative count, and a locked popup has time left. */
    ghost predicate Valid()
      reads this
    {
      remainingTime >= 0 && (isLocked ==> remainingTime > 0)
    }

    /** Whether the countdown effect has a one-second interval armed (line 64). */
    predicate Ticking()
      reads this
    {
      isLocked && remainingTime > 0
    }

    /** Lines 10-14: the initial React state, over the given store. */
    constructor (st: Storage)
      ensures Valid()
      ensures url == "" && duration == "" && !isLocked && remainingTime == 0 && error == ""
      ensures storage == st && sent == []
    {
      url, duration, isLocked, remainingTime, error := "", "", false, 0, "";
      storage, sent := st, [];
    }

    /** Lines 105-107: the URL of the active tab fills the form when there is one. */
    method ActiveTabUrl(activeUrl: Option<string>)
      modifies this`url
      ensures url == if activeUrl.Some? && activeUrl.value != "" then activeUrl.value else old(url)
    {
      if activeUrl.Some? && activeUrl.value != "" {
        url := activeUrl.value;
      }
    }

    /** Line 148: typing in the duration field. */
    method DurationInput(value: string)
      modifies this`duration
      ensures duration == value
    {
      duration := value;
    }

    /** Lines 62-72: the countdown effect, run after every render in which
        isLocked or remainingTime changed. It arms the interval while time is
        left, and unlocks once the count is exactly zero. */
    method CountdownEffect() returns (armed: bool)
      modifies this`isLocked
      ensures armed == (old(isLocked) && remainingTime > 0)
      ensures isLocked == (old(isLocked) && remainingTime != 0)
      ensures remainingTime >= 0 ==> Valid()
    {
      armed := false;
      if isLocked && remainingTime > 0 {
        armed := true;
      } else if remainingTime == 0 && isLocked {
        isLocked := false;
      }
    }

    /** A second passes: when the interval is armed, line 66 takes one off the
        count and the effect runs again; otherwise nothing happens. */
    method Tick()
      requires Valid()
      modifies this`remainingTime, this`isLocked
      ensures Valid()
      ensures old(Ticking()) ==> remainingTime == old(remainingTime) - 1 && isLocked == (remainingTime > 0)
      ensures !old(Ticking()) ==> remainingTime == old(remainingTime) && isLocked == old(isLocked)
    {
      if isLocked && remainingTime > 0 {
        remainingTime := remainingTime - 1;
        var _ := CountdownEffect();
      }
    }

    /** Lines 16-47 (one clock reading for both `Date.now()` calls): validate
        the form; on success lock the popup, persist the record and send it to
        the background worker. A rejected form only sets the error. The
        countdown effect that follows a successful lock only arms the interval. */
    method HandleLock(now: int)
      requires Valid()
      modifies this`error, this`isLocked, this`remainingTime, this`storage, this`sent
      ensures Valid()
      ensures match CheckInput(old(url), old(duration))
        case Rejected(message) =>
          error == message && isLocked == old(isLocked) && remainingTime == old(remainingTime)
          && storage == old(storage) && sent == old(sent)
        case Accepted(minutes) =>
          error == "" && isLocked && remainingTime == minutes * 60
          && storage == WriteLock(old(storage), LockData(old(url), now, minutes))
          && sent == old(sent) + [LockData(old(url), now, minutes)]
    {
      var checked := CheckInput(url, duration);
      if checked.Rejected? {
        error := checked.message;
      } else {
        var record := LockData(url, now, checked.minutes);
        error, isLocked, remainingTime := "", true, checked.minutes * 60;
        storage, sent := WriteLock(storage, record), sent + [record];
      }
    }

    /** Lines 54-60: unlock the popup, clear the form and the stored record. */
    method HandleUnlock()
      modifies this
      ensures Valid()
      ensures !isLocked && url == "" && duration == "" && remainingTime == 0
      ensures storage == RemoveLock(old(storage))
      ensures error == old(error) && sent == old(sent)
    {
      isLocked := false;
      url := "";
      duration := "";
      remainingTime := 0;
      storage := RemoveLock(storage);
      var _ := CountdownEffect();
    }

    /** Lines 74-90, then the countdown effect: a stored lock with time left is
        shown again; a stored lock with less than a second left is dropped by the
        effect at once; anything else leaves the popup as it was. */
    method Restore(now: int)
      requires Valid()
      modifies this`remainingTime, this`url, this`duration, this`isLocked
      ensures Valid()
      ensures match RestoredSeconds(old(storage), now)
        case None =>
          remainingTime == old(remainingTime) && url == old(url) && duration == old(duration)
          && isLocked == old(isLocked)
        case Some(seconds) =>
          var d := ReadLock(old(storage)).value;
          remainingTime == seconds && url == d.lockedUrl && duration == IntToString(d.duration)
          && isLocked == (seconds > 0)
    {
      match ReadLock(storage)
      case None =>
      case Some(d) =>
        var ms := RemainingMs(d, now);
        if ms > 0 {
          remainingTime := ms / 1000;
          url := d.lockedUrl;
          duration := IntToString(d.duration);
          isLocked := true;
          var _ := CountdownEffect();
        }
    }
  }
}
