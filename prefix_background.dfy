/** background.js: the prefix-matching background worker. It cancels every
    request outside the locked URL while the lock runs, closes the tabs that do
    not start with it, redirects new tabs to it, and on start-up restarts a lock
    found in storage. */
module PrefixBackground {
  import opened Chrome

  /** What a webRequest blocking listener returns: `{ cancel: … }`. */
  datatype Verdict = Verdict(cancel: bool)

  /** An open tab, as tabs.query reports it. */
  datatype Tab = Tab(id: int, url: string)

  /** The worker's module state and the parts of the browser it changes. */
  class Worker {
    var lockActive: bool
    var lockedUrl: string
    var lockEndTime: int
    /** Registrations of blockWebRequests on webRequest.onBeforeRequest. */
    var blockingListeners: nat
    /** blockNewTabs closures registered on tabs.onCreated; none is ever removed. */
    var newTabHandlers: nat
    /** Pending expiry callbacks (lines 40-44), by the time each one is due. */
    var expiryTimers: seq<int>
    /** The open tabs, in the order tabs.query lists them. */
    var tabs: seq<Tab>
    /** tabs.query calls (line 47) whose reply has not been delivered yet. */
    var pendingSweeps: nat

    /** blockWebRequests is registered exactly while the lock flag is up, the
        flag is never up without an expiry callback pending, and a lowered flag
        comes with an empty URL. */
    ghost predicate Valid()
      reads this
    {
      && blockingListeners == (if lockActive then 1 else 0)
      && (lockActive ==> |expiryTimers| > 0)
      && (!lockActive ==> lockedUrl == "")
    }

    /** Lines 1-3, in a browser whose open tabs are `openTabs`. */
    constructor (openTabs: seq<Tab>)
      ensures Valid()
      ensures !lockActive && lockedUrl == "" && lockEndTime == 0
      ensures blockingListeners == 0 && newTabHandlers == 0 && expiryTimers == [] && tabs == openTabs
      ensures pendingSweeps == 0
    {
      lockActive, lockedUrl, lockEndTime := false, "", 0;
      blockingListeners, newTabHandlers, expiryTimers := 0, 0, [];
      tabs, pendingSweeps := openTabs, 0;
    }

    /** Lines 5-7, with `now` for `Date.now()`. */
    predicate IsLockActive(now: int)
      reads this
    {
      lockActive && now < lockEndTime
    }

    /** Lines 9-20: the verdict for one request. */
    function BlockWebRequests(url: string, now: int): (v: Verdict)
      reads this
      ensures !IsLockActive(now) ==> !v.cancel
      ensures IsLockActive(now) ==> (v.cancel <==> !StartsWith(url, lockedUrl))
    {
      if !IsLockActive(now) then Verdict(false)
      else if StartsWith(url, lockedUrl) then Verdict(false)
      else Verdict(true)
    }

    /** The browser asks onBeforeRequest about a request: it is cancelled only
        when blockWebRequests is registered and cancels it. */
    method OnBeforeRequest(url: string, now: int) returns (v: Verdict)
      requires Valid()
      ensures v.cancel <==> lockActive && now < lockEndTime && !StartsWith(url, lockedUrl)
    {
      if blockingListeners > 0 {
        v := BlockWebRequests(url, now);
      } else {
        v := Verdict(false);
      }
    }

    /** Lines 48-52: close every tab whose URL, as the query reported it, does
        not start with the locked URL as it is when the reply is handled. */
    method SweepTabs()
      modifies this`tabs
      ensures tabs == Conforming(old(tabs), lockedUrl)
    {
      var snapshot := tabs;
      var kept := 0;
      for i := 0 to |snapshot|
        invariant kept == |Conforming(snapshot[..i], lockedUrl)|
        invariant tabs == Conforming(snapshot[..i], lockedUrl) + snapshot[i..]
      {
        SweepStep(snapshot, i, lockedUrl);
        if !StartsWith(snapshot[i].url, lockedUrl) {
          tabs := tabs[..kept] + tabs[kept + 1..];
        } else {
          kept := kept + 1;
        }
      }
      assert snapshot[..|snapshot|] == snapshot;
      assert snapshot[|snapshot|..] == [];
      assert tabs == Conforming(snapshot, lockedUrl) + [];
    }

    /** Lines 22-61: raise the lock, register blockWebRequests once (removing
        the previous registration first), arm the expiry callback for
        `lockEndTime - now` (as setTimeout converts that delay), query the tabs
        and add one more blockNewTabs. The tabs are swept when the query's
        reply arrives (QueryReply). */
    method StartLock(d: LockData, now: int)
      requires Valid()
      modifies this
      ensures Valid()
      ensures lockActive && lockedUrl == d.lockedUrl && lockEndTime == LockEndTime(d)
      ensures blockingListeners == 1
      ensures expiryTimers == old(expiryTimers) + [now + TimerDelay(LockEndTime(d) - now)]
      ensures tabs == old(tabs) && pendingSweeps == old(pendingSweeps) + 1
      ensures newTabHandlers == old(newTabHandlers) + 1
    {
      lockActive := true;
      lockedUrl := d.lockedUrl;
      lockEndTime := LockEndTime(d);
      if blockingListeners > 0 {
        blockingListeners := blockingListeners - 1;
      }
      blockingListeners := blockingListeners + 1;
      expiryTimers := expiryTimers + [now + TimerDelay(lockEndTime - now)];
      pendingSweeps := pendingSweeps + 1;
      newTabHandlers := newTabHandlers + 1;
    }

    /** Lines 47-53: the reply to a pending tabs.query arrives and the sweep
        runs against the locked URL current at that moment, which an expiry
        callback that ran first has already set to "". */
    method QueryReply()
      requires pendingSweeps > 0
      modifies this`tabs, this`pendingSweeps
      ensures tabs == Conforming(old(tabs), lockedUrl)
      ensures pendingSweeps == old(pendingSweeps) - 1
    {
      pendingSweeps := pendingSweeps - 1;
      SweepTabs();
    }

    /** Lines 40-44: the expiry callback armed by some earlier StartLock fires.
        It lowers whatever lock is current and unregisters blockWebRequests. */
    method FireExpiry(k: nat)
      requires Valid()
      requires k < |expiryTimers|
      modifies this
      ensures Valid()
      ensures !lockActive && lockedUrl == "" && blockingListeners == 0
      ensures lockEndTime == old(lockEndTime) && newTabHandlers == old(newTabHandlers) && tabs == old(tabs)
      ensures pendingSweeps == old(pendingSweeps)
      ensures expiryTimers == old(expiryTimers[..k] + expiryTimers[k + 1..])
      ensures forall url, now :: !BlockWebRequests(url, now).cancel
    {
      lockActive := false;
      lockedUrl := "";
      if blockingListeners > 0 {
        blockingListeners := blockingListeners - 1;
      }
      expiryTimers := expiryTimers[..k] + expiryTimers[k + 1..];
    }

    /** Lines 56-60: a tab is created with `url`; each registered blockNewTabs
        sends it to the locked URL when the lock is active and `url` does not
        start with it. Returns the number of tabs.update calls. */
    method TabCreated(id: int, url: string, now: int) returns (redirects: nat)
      modifies this`tabs
      ensures redirects == if NewTabViolates(url, now) then newTabHandlers else 0
      ensures tabs == old(tabs) + [Tab(id, if NewTabViolates(url, now) && newTabHandlers > 0 then lockedUrl else url)]
      ensures IsLockActive(now) && newTabHandlers > 0 ==> StartsWith(tabs[|tabs| - 1].url, lockedUrl)
    {
      tabs := tabs + [Tab(id, url)];
      redirects := 0;
      if NewTabViolates(url, now) {
        redirects := newTabHandlers;
        if newTabHandlers > 0 {
          tabs := tabs[|tabs| - 1 := Tab(id, lockedUrl)];
        }
      }
      StartsWithSelf(lockedUrl);
    }

    /** The condition blockNewTabs tests (line 57). */
    predicate NewTabViolates(url: string, now: int)
      reads this
    {
      IsLockActive(now) && !StartsWith(url, lockedUrl)
    }

    /** Lines 64-68: a START_LOCK message starts the lock it carries; any other
        message is ignored. */
    method OnMessage(kind: string, d: LockData, now: int)
      requires Valid()
      modifies this
      ensures Valid()
      ensures kind == "START_LOCK" ==>
        lockActive && lockedUrl == d.lockedUrl && lockEndTime == LockEndTime(d)
        && blockingListeners == 1 && newTabHandlers == old(newTabHandlers) + 1
        && expiryTimers == old(expiryTimers) + [now + TimerDelay(LockEndTime(d) - now)]
        && tabs == old(tabs) && pendingSweeps == old(pendingSweeps) + 1
      ensures kind != "START_LOCK" ==>
        lockActive == old(lockActive) && lockedUrl == old(lockedUrl) && lockEndTime == old(lockEndTime)
        && blockingListeners == old(blockingListeners) && newTabHandlers == old(newTabHandlers)
        && expiryTimers == old(expiryTimers) && tabs == old(tabs) && pendingSweeps == old(pendingSweeps)
    {
      if kind == "START_LOCK" {
        StartLock(d, now);
      }
    }

    /** Lines 71-79: on start-up, a complete record in storage restarts the
        lock from its own start time; nothing else happens otherwise. */
    method Reconcile(st: Storage, now: int)
      requires Valid()
      modifies this
      ensures Valid()
      ensures ReadLock(st).Some? ==>
        var d := ReadLock(st).value;
        lockActive && lockedUrl == d.lockedUrl && lockEndTime == LockEndTime(d)
        && blockingListeners == 1 && newTabHandlers == old(newTabHandlers) + 1
        && expiryTimers == old(expiryTimers) + [now + TimerDelay(LockEndTime(d) - now)]
        && tabs == old(tabs) && pendingSweeps == old(pendingSweeps) + 1
      ensures ReadLock(st).None? ==>
        lockActive == old(lockActive) && lockedUrl == old(lockedUrl) && lockEndTime == old(lockEndTime)
        && blockingListeners == old(blockingListeners) && newTabHandlers == old(newTabHandlers)
        && expiryTimers == old(expiryTimers) && tabs == old(tabs) && pendingSweeps == old(pendingSweeps)
    {
      match ReadLock(st)
      case Some(d) => StartLock(d, now);
      case None =>
    }
  }

  /** The tabs the sweep leaves open: those whose URL starts with `prefix`, in order. */
  function Conforming(tabs: seq<Tab>, prefix: string): (r: seq<Tab>)
    ensures |r| <= |tabs|
  {
    if tabs == [] then []
    else if StartsWith(tabs[0].url, prefix) then [tabs[0]] + Conforming(tabs[1..], prefix)
    else Conforming(tabs[1..], prefix)
  }

  lemma SplitAt(done: seq<Tab>, rest: seq<Tab>)
    requires rest != []
    ensures (done + rest)[..|done|] == done && (done + rest)[|done|] == rest[0]
    ensures (done + rest)[|done| + 1..] == rest[1..]
    ensures done + rest == (done + [rest[0]]) + rest[1..]
  {
  }

  /** One step of the sweep over `snapshot`: with the first `i` tabs swept,
      tab `i` stays where it is when it conforms and is closed otherwise. */
  lemma SweepStep(snapshot: seq<Tab>, i: nat, prefix: string)
    requires i < |snapshot|
    ensures var done := Conforming(snapshot[..i], prefix);
      var current := done + snapshot[i..];
      var next := Conforming(snapshot[..i + 1], prefix) + snapshot[i + 1..];
      if StartsWith(snapshot[i].url, prefix)
      then next == current && |Conforming(snapshot[..i + 1], prefix)| == |done| + 1
      else next == current[..|done|] + current[|done| + 1..] && |Conforming(snapshot[..i + 1], prefix)| == |done|
  {
    var done := Conforming(snapshot[..i], prefix);
    assert snapshot[..i + 1] == snapshot[..i] + [snapshot[i]];
    ConformingAppend(snapshot[..i], snapshot[i], prefix);
    SplitAt(done, snapshot[i..]);
    assert snapshot[i..][1..] == snapshot[i + 1..];
  }

  lemma {:induction false} ConformingAppend(tabs: seq<Tab>, t: Tab, prefix: string)
    ensures Conforming(tabs + [t], prefix) ==
      Conforming(tabs, prefix) + (if StartsWith(t.url, prefix) then [t] else [])
    decreases |tabs|
  {
    if tabs == [] {
      assert [t][1..] == [];
    } else {
      assert (tabs + [t])[1..] == tabs[1..] + [t];
      ConformingAppend(tabs[1..], t, prefix);
    }
  }

  /** The sweep closes exactly the tabs whose URL does not start with `prefix`:
      every tab it leaves open was open and conforms, and every open conforming
      tab is left open. */
  lemma {:induction false} ConformingExactly(tabs: seq<Tab>, prefix: string, t: Tab)
    ensures t in Conforming(tabs, prefix) <==> t in tabs && StartsWith(t.url, prefix)
    decreases |tabs|
  {
    if tabs != [] {
      ConformingExactly(tabs[1..], prefix, t);
      assert tabs == [tabs[0]] + tabs[1..];
    }
  }

  /** A sweep keeps every tab when all of them are on the locked site. */
  lemma {:induction false} ConformingKeepsAll(tabs: seq<Tab>, prefix: string)
    requires forall i :: 0 <= i < |tabs| ==> StartsWith(tabs[i].url, prefix)
    ensures Conforming(tabs, prefix) == tabs
    decreases |tabs|
  {
    if tabs != [] {
      ConformingKeepsAll(tabs[1..], prefix);
    }
  }

  /** The sweep is idempotent: a second sweep with the same URL closes nothing more. */
  lemma ConformingIdempotent(tabs: seq<Tab>, prefix: string)
    ensures Conforming(Conforming(tabs, prefix), prefix) == Conforming(tabs, prefix)
  {
    var r := Conforming(tabs, prefix);
    forall i | 0 <= i < |r| ensures StartsWith(r[i].url, prefix) {
      ConformingExactly(tabs, prefix, r[i]);
    }
    ConformingKeepsAll(r, prefix);
  }

  /** An empty locked URL is a prefix of every URL: such a sweep closes no tab
      and such a lock cancels no request. */
  lemma EmptyLockedUrlEnforcesNothing(w: Worker, tabs: seq<Tab>, url: string, now: int)
    requires w.lockedUrl == ""
    ensures Conforming(tabs, "") == tabs
    ensures !w.BlockWebRequests(url, now).cancel
  {
    forall i | 0 <= i < |tabs| ensures StartsWith(tabs[i].url, "") {
      StartsWithSelf(tabs[i].url);
    }
    ConformingKeepsAll(tabs, "");
    StartsWithSelf(url);
  }

  /** A request for the locked URL or any page under it is never cancelled. */
  lemma LockedSiteNeverBlocked(w: Worker, suffix: string, now: int)
    ensures !w.BlockWebRequests(w.lockedUrl + suffix, now).cancel
  {
    StartsWithExtension(w.lockedUrl, suffix);
  }

  /** Blocking only ever stops as time passes: a request allowed at some time
      is allowed at every later time, and nothing is blocked from the deadline on. */
  lemma BlockingEndsAtDeadline(w: Worker, url: string, t1: int, t2: int)
    requires t1 <= t2
    ensures w.BlockWebRequests(url, t2).cancel ==> w.BlockWebRequests(url, t1).cancel
    ensures t2 >= w.lockEndTime ==> !w.BlockWebRequests(url, t2).cancel
  {
  }

  /** A tab redirected by blockNewTabs would not be redirected again: the
      target starts with the locked URL. */
  lemma RedirectTargetConforms(w: Worker, now: int)
    ensures !w.NewTabViolates(w.lockedUrl, now)
  {
    StartsWithSelf(w.lockedUrl);
  }
}
