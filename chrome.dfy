/** The slice of the browser that the focus lock relies on: the key/value store
    (chrome.storage.local), the persisted lock record kept in it, JavaScript's
    truthiness of the stored values, and String.prototype.startsWith. */
module Chrome {

  datatype Option<+T> = None | Some(value: T)

  /** A value held in chrome.storage.local: the extension stores strings
      (the URL) and integral numbers (start time, duration). */
  datatype Value = Str(s: string) | Num(n: int)

  type Storage = map<string, Value>

  const LockedUrlKey: string := "lockedUrl"
  const StartTimeKey: string := "startTime"
  const DurationKey: string := "duration"

  /** The three keys every component reads, writes and removes together. */
  const LockKeys: set<string> := {LockedUrlKey, StartTimeKey, DurationKey}

  /** The lock as the components pass it around: `{ lockedUrl, startTime, duration }`. */
  datatype LockData = LockData(lockedUrl: string, startTime: int, duration: int)

  /** JavaScript truthiness of `data[key]`: a missing key is `undefined`,
      the empty string and the number 0 are falsy, everything else is truthy. */
  predicate Truthy(st: Storage, key: string)
  {
    key in st &&
    match st[key]
    case Str(s) => s != ""
    case Num(n) => n != 0
  }

  /** `a.startsWith(b)`. */
  predicate StartsWith(s: string, prefix: string)
  {
    |prefix| <= |s| && s[..|prefix|] == prefix
  }

  /** The deadline both background drafts compute: `startTime + duration * 60 * 1000`. */
  function LockEndTime(d: LockData): (end: int)
    ensures d.duration > 0 ==> end - d.startTime >= 60000
    ensures d.duration > 0 ==> end - d.startTime == d.duration * 60000
  {
    d.startTime + d.duration * 60 * 1000
  }

  /** The largest delay `setTimeout` honours: its delay is a WebIDL `long`. */
  const MaxTimerDelay: int := 0x7FFF_FFFF

  /** The WebIDL conversion of a whole number to `long`: the value congruent
      to `x` modulo 2^32 in [-2^31, 2^31). */
  function ToInt32(x: int): (r: int)
    ensures -0x8000_0000 <= r <= MaxTimerDelay
    ensures (x - r) % 0x1_0000_0000 == 0
    ensures -0x8000_0000 <= x <= MaxTimerDelay ==> r == x
  {
    var w := x % 0x1_0000_0000;
    if w > MaxTimerDelay then w - 0x1_0000_0000 else w
  }

  /** The delay after which `setTimeout(f, ms)` runs `f`: the delay converted
      to `long`, and 0 when that is negative (the HTML standard's timer
      initialization steps). */
  function TimerDelay(ms: int): (r: int)
    ensures 0 <= r <= MaxTimerDelay
    ensures 0 <= ms <= MaxTimerDelay ==> r == ms
    ensures r == 0 <==> ToInt32(ms) <= 0
    ensures r > 0 ==> (ms - r) % 0x1_0000_0000 == 0
  {
    if ToInt32(ms) < 0 then 0 else ToInt32(ms)
  }

  /** A delay just past the largest one wraps to a negative `long`, so such a
      timer runs at once; every delay up to 2^31 - 1 is honoured exactly. */
  lemma DelayPastMaximumRunsAtOnce(ms: int)
    requires MaxTimerDelay < ms <= 0xFFFF_FFFF
    ensures TimerDelay(ms) == 0
  {
  }

  /** Within one wrap either side of zero, a timer runs at once exactly when
      its delay lies in [-2^31, 0] or in [2^31, 2^32); a delay below -2^31
      wraps to a positive one, so a deadline passed long ago is not honoured
      as "at once". */
  lemma DelayRunsAtOnceExactly(ms: int)
    requires -0x1_0000_0000 < ms < 0x1_0000_0000
    ensures TimerDelay(ms) == 0 <==> (-0x8000_0000 <= ms <= 0 || MaxTimerDelay < ms)
    ensures ms < -0x8000_0000 ==> TimerDelay(ms) == ms + 0x1_0000_0000
  {
  }

  /** The delay for a deadline passed `age` ms ago repeats with period 2^32:
      with `a` the age modulo 2^32, the timer runs at once when `a` is at
      most 2^31, and otherwise after 2^32 - a ms, which lies in (0, 2^31). */
  lemma ExpiredDelayByAge(age: int)
    requires age >= 0
    ensures age % 0x1_0000_0000 <= 0x8000_0000 ==> TimerDelay(-age) == 0
    ensures age % 0x1_0000_0000 > 0x8000_0000 ==>
      TimerDelay(-age) == 0x1_0000_0000 - age % 0x1_0000_0000 && 0 < TimerDelay(-age) < 0x8000_0000
  {
    var a := age % 0x1_0000_0000;
    assert age == (age / 0x1_0000_0000) * 0x1_0000_0000 + a;
    if a == 0 {
      assert -age == -(age / 0x1_0000_0000) * 0x1_0000_0000;
      assert (-age) % 0x1_0000_0000 == 0;
    } else {
      assert -age == (-(age / 0x1_0000_0000) - 1) * 0x1_0000_0000 + (0x1_0000_0000 - a);
      assert (-age) % 0x1_0000_0000 == 0x1_0000_0000 - a;
    }
  }

  /** The guard `data.lockedUrl && data.startTime && data.duration` followed by
      reading the three fields; a value of the wrong type counts as absent. */
  function ReadLock(st: Storage): (r: Option<LockData>)
    ensures r.Some? ==> Truthy(st, LockedUrlKey) && Truthy(st, StartTimeKey) && Truthy(st, DurationKey)
    ensures r.Some? ==> r.value.lockedUrl != "" && r.value.startTime != 0 && r.value.duration != 0
  {
    if Truthy(st, LockedUrlKey) && Truthy(st, StartTimeKey) && Truthy(st, DurationKey)
       && st[LockedUrlKey].Str? && st[StartTimeKey].Num? && st[DurationKey].Num?
    then Some(LockData(st[LockedUrlKey].s, st[StartTimeKey].n, st[DurationKey].n))
    else None
  }

  /** `chrome.storage.local.set({ lockedUrl, duration, startTime })`: merges the
      three keys into whatever is stored. */
  function WriteLock(st: Storage, d: LockData): (r: Storage)
    ensures forall k :: k in st && k !in LockKeys ==> k in r && r[k] == st[k]
    ensures r.Keys == st.Keys + LockKeys
  {
    st[LockedUrlKey := Str(d.lockedUrl)][DurationKey := Num(d.duration)][StartTimeKey := Num(d.startTime)]
  }

  /** `chrome.storage.local.remove(["lockedUrl", "startTime", "duration"])`. */
  function RemoveLock(st: Storage): (r: Storage)
    ensures r.Keys == st.Keys - LockKeys
    ensures forall k :: k in r ==> r[k] == st[k]
  {
    st - LockKeys
  }

  /** Writing a record and reading it back gives the record, exactly when each
      of its fields is truthy; otherwise the reader sees no lock. */
  lemma ReadAfterWrite(st: Storage, d: LockData)
    ensures ReadLock(WriteLock(st, d)) ==
      if d.lockedUrl != "" && d.startTime != 0 && d.duration != 0 then Some(d) else None
  {
    var w := WriteLock(st, d);
    assert w[LockedUrlKey] == Str(d.lockedUrl);
    assert w[DurationKey] == Num(d.duration);
    assert w[StartTimeKey] == Num(d.startTime);
  }

  /** After the three keys are removed no component sees a lock. */
  lemma ReadAfterRemove(st: Storage)
    ensures ReadLock(RemoveLock(st)) == None
  {
    assert LockedUrlKey in LockKeys;
    assert LockedUrlKey !in RemoveLock(st);
  }

  /** Every string starts with itself, and with the empty string. */
  lemma StartsWithSelf(s: string)
    ensures StartsWith(s, s) && StartsWith(s, "")
  {
  }

  /** Every extension of a prefix starts with it. */
  lemma StartsWithExtension(prefix: string, suffix: string)
    ensures StartsWith(prefix + suffix, prefix)
  {
    assert (prefix + suffix)[..|prefix|] == prefix;
  }
}
