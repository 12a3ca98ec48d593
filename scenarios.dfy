/** Verified clients of the three components: concrete lock scenarios, the
    behaviour of the drafts on a restart, and the orders in which the
    browser may deliver their callbacks. */
module Scenarios {
  import opened Chrome
  import opened JsText
  import FocusLock
  import PrefixBackground
  import ExactBackground

  const Docs: string := "https://docs.example.com"
  const DocsPage: string := "https://docs.example.com/page"
  const Other: string := "https://other.com"

  lemma DocsPageIsUnderDocs()
    ensures StartsWith(DocsPage, Docs) && !StartsWith(Other, Docs)
  {
    assert DocsPage == Docs + "/page";
    StartsWithExtension(Docs, "/page");
    assert |Other| < |Docs|;
  }

  /** A one-minute lock from t=1000: half-way through, the docs page is
      allowed and another site is cancelled; a second after the deadline
      both are allowed. */
  method PrefixLockWindow() returns (page: bool, other: bool, pageLate: bool, otherLate: bool)
    ensures !page && other && !pageLate && !otherLate
  {
    var w := new PrefixBackground.Worker([]);
    w.StartLock(LockData(Docs, 1000, 1), 1000);
    DocsPageIsUnderDocs();
    var v := w.OnBeforeRequest(DocsPage, 1000 + 30000);
    page := v.cancel;
    v := w.OnBeforeRequest(Other, 1000 + 30000);
    other := v.cancel;
    v := w.OnBeforeRequest(DocsPage, 1000 + 61000);
    pageLate := v.cancel;
    v := w.OnBeforeRequest(Other, 1000 + 61000);
    otherLate := v.cancel;
  }

  /** A new tab on another site during that lock is sent to the locked URL by
      exactly one tabs.update; a second start of the same lock registers a
      second blockNewTabs, and the next such tab gets two. */
  method NewTabRedirects() returns (first: nat, second: nat, url: string)
    ensures first == 1 && second == 2 && url == Docs
  {
    var w := new PrefixBackground.Worker([]);
    var d := LockData(Docs, 1000, 1);
    w.StartLock(d, 1000);
    DocsPageIsUnderDocs();
    first := w.TabCreated(7, Other, 2000);
    url := w.tabs[|w.tabs| - 1].url;
    w.StartLock(d, 3000);
    second := w.TabCreated(8, Other, 4000);
  }

  /** A zero duration is refused: the popup shows the invalid-duration error,
      stays unlocked, stores nothing and sends nothing. */
  method ZeroDurationRefused() returns (message: string, locked: bool, stored: Option<LockData>, sent: nat)
    ensures message == FocusLock.InvalidDurationError && !locked && stored == None && sent == 0
  {
    var p := new FocusLock.Popup(map[]);
    p.ActiveTabUrl(Some(Docs));
    p.DurationInput("0");
    assert IntToString(0) == "0";
    FocusLock.RejectsNonPositive(Docs, 0);
    p.HandleLock(5000);
    message, locked, stored, sent := p.error, p.isLocked, ReadLock(p.storage), |p.sent|;
  }

  /** The popup starts a lock, the background worker gets the START_LOCK
      message; after a restart, a fresh worker reconciles from what the popup
      stored. Both workers give every request the same verdict at every time,
      and both stop at the original deadline. The popup reopened at `at`
      counts down the whole seconds left to that deadline. */
  method RestartKeepsDeadline(url: string, minutes: nat, now: int, restartAt: int, probe: string, at: int)
    returns (live: bool, restarted: bool, deadline: int, shown: Option<int>)
    requires url != "" && minutes > 0 && now != 0
    ensures live == restarted
    ensures deadline == now + minutes * 60000
    ensures live ==> at < deadline
    ensures shown.Some? <==> at < deadline
    ensures shown.Some? ==> shown.value == (deadline - at) / 1000
  {
    var message, stored := PopupLocks(url, minutes, now);
    var record := LockData(url, now, minutes);
    assert LockEndTime(record) == now + minutes * 60000;

    var w1 := new PrefixBackground.Worker([]);
    w1.OnMessage("START_LOCK", message, now);
    var w2 := new PrefixBackground.Worker([]);
    w2.Reconcile(stored, restartAt);
    var v1 := w1.OnBeforeRequest(probe, at);
    var v2 := w2.OnBeforeRequest(probe, at);
    live, restarted, deadline := v1.cancel, v2.cancel, w2.lockEndTime;

    var reopened := new FocusLock.Popup(stored);
    shown := FocusLock.RestoredSeconds(reopened.storage, at);
  }

  /** The popup, given a URL and a positive whole number of minutes, sends
      and stores the same record, which every reader of the store sees. */
  method PopupLocks(url: string, minutes: nat, now: int) returns (message: LockData, stored: Storage)
    requires url != "" && minutes > 0 && now != 0
    ensures message == LockData(url, now, minutes)
    ensures ReadLock(stored) == Some(message)
  {
    var typed := NatToString(minutes);
    assert typed + [] == typed;
    FocusLock.AcceptsPositiveNumeral(url, minutes, []);
    assert FocusLock.CheckInput(url, typed) == FocusLock.Accepted(minutes);
    var p := new FocusLock.Popup(map[]);
    p.ActiveTabUrl(Some(url));
    p.DurationInput(typed);
    assert p.url == url && p.duration == typed && p.storage == map[] && p.sent == [];
    p.HandleLock(now);
    message := LockData(url, now, minutes);
    assert p.sent == [message];
    stored := p.storage;
    assert stored == WriteLock(map[], message);
    ReadAfterWrite(map[], message);
  }

  /** background.js restarts a stored lock even when it has expired: no
      request is cancelled any more, and while the record expired at most
      2^31 ms (about 24.8 days) ago the expiry callback is due at once.
      Whether the tab on another site is closed depends on which the browser
      delivers first: when the tabs.query reply comes first the sweep closes
      it; when the expiry callback comes first the locked URL is "" and the
      sweep closes nothing. */
  method StaleRecordSweepDependsOnOrder() returns (cancelled: bool, due: int, openIfReplyFirst: nat, openIfTimerFirst: nat)
    ensures !cancelled && due == 1000000
    ensures openIfReplyFirst == 0 && openIfTimerFirst == 1
  {
    var st := WriteLock(map[], LockData(Docs, 1000, 1));
    ReadAfterWrite(map[], LockData(Docs, 1000, 1));
    var open := [PrefixBackground.Tab(1, Other)];
    DocsPageIsUnderDocs();

    var w := new PrefixBackground.Worker(open);
    w.Reconcile(st, 1000000);
    var v := w.OnBeforeRequest(Other, 1000000);
    cancelled, due := v.cancel, w.expiryTimers[0];
    w.QueryReply();
    openIfReplyFirst := |w.tabs|;

    var u := new PrefixBackground.Worker(open);
    u.Reconcile(st, 1000000);
    u.FireExpiry(0);
    u.QueryReply();
    PrefixBackground.EmptyLockedUrlEnforcesNothing(u, open, Other, 1000000);
    openIfTimerFirst := |u.tabs|;
  }

  /** A record that expired 2^31 + 1 ms ago: the negative delay wraps to
      the largest one, so the expiry callback is due about 24.8 days later,
      the tabs.query reply comes first, and the tab on another site is closed
      even though nothing is blocked. */
  method AncientRecordStillSweeps() returns (cancelled: bool, due: int, open: nat)
    ensures !cancelled && due == 61000 + 0x8000_0001 + MaxTimerDelay
    ensures open == 0
  {
    var now := 61000 + 0x8000_0001;
    var st := WriteLock(map[], LockData(Docs, 1000, 1));
    ReadAfterWrite(map[], LockData(Docs, 1000, 1));
    DocsPageIsUnderDocs();
    var w := new PrefixBackground.Worker([PrefixBackground.Tab(1, Other)]);
    w.Reconcile(st, now);
    var v := w.OnBeforeRequest(Other, now);
    cancelled, due := v.cancel, w.expiryTimers[0];
    w.QueryReply();
    open := |w.tabs|;
  }

  /** Starting a second lock does not cancel the first lock's expiry
      callback; when that callback fires at its due time it ends the second
      lock too, long before the second deadline. */
  method EarlierTimerEndsLaterLock() returns (due: int, before: bool, after: bool)
    ensures due == 61000 && before && !after
  {
    var w := new PrefixBackground.Worker([]);
    w.StartLock(LockData(Docs, 1000, 1), 1000);
    w.StartLock(LockData(Docs, 1000, 60), 2000);
    DocsPageIsUnderDocs();
    var v := w.OnBeforeRequest(Other, 30000);
    before, due := v.cancel, w.expiryTimers[0];
    w.FireExpiry(0);
    v := w.OnBeforeRequest(Other, 61000);
    after := v.cancel;
  }

  /** A lock of 35,792 minutes, which the popup accepts, outlasts the largest
      setTimeout delay: background.js arms its expiry callback for now, so the
      lock ends as soon as the browser runs it; 35,791 minutes is the longest
      lock whose callback is due at its deadline. */
  method LongLockExpiresAtOnce() returns (deadline: int, due: int, longestExact: int)
    ensures deadline == 1000 + 35792 * 60000 && due == 1000
    ensures longestExact == 1000 + 35791 * 60000
  {
    var w := new PrefixBackground.Worker([]);
    w.StartLock(LockData(Docs, 1000, 35792), 1000);
    deadline, due := w.lockEndTime, w.expiryTimers[0];
    var u := new PrefixBackground.Worker([]);
    u.StartLock(LockData(Docs, 1000, 35791), 1000);
    longestExact := u.expiryTimers[0];
  }

  /** A lock of 71,583 minutes needs a delay just past 2^32 ms, which wraps
      to a short positive one: both drafts end it 12,704 ms after it
      started. */
  method LongerLockEndsWithinSeconds() returns (prefixDue: int, exactDue: int)
    ensures prefixDue == 1000 + 12704 && exactDue == 1000 + 12704
  {
    var w := new PrefixBackground.Worker([]);
    w.StartLock(LockData(Docs, 1000, 71583), 1000);
    prefixDue := w.expiryTimers[0];
    var u := new ExactBackground.Worker(map[], map[]);
    var _ := u.StartLock(LockData(Docs, 1000, 71583), 1000);
    exactDue := u.removalTimers[0].due;
  }

  /** src/background.js loaded over a store holding a one-minute lock of the
      docs site from t=1000, with tab 3 open on it: start-up installs one
      closure and one removal timer for it. */
  method ExactDraftStarted() returns (w: ExactBackground.Worker)
    ensures fresh(w) && w.Valid()
    ensures w.onUpdated == [ExactBackground.Closure(0, Docs)]
    ensures |w.removalTimers| == 1 && w.removalTimers[0].closure == 0
    ensures w.tabs == map[3 := Docs]
  {
    var st := WriteLock(map[], LockData(Docs, 1000, 1));
    ReadAfterWrite(map[], LockData(Docs, 1000, 1));
    w := new ExactBackground.Worker(st, map[3 := Docs]);
    var started := w.Startup(2000);
  }

  /** src/background.js on start-up with a stored lock: a move to a page under
      the locked site is sent back to the exact locked URL once, and after the
      removal timer fires the same move goes through. */
  method ExactDraftRedirectsUntilRemoved() returns (during: seq<ExactBackground.Redirect>, after: seq<ExactBackground.Redirect>)
    ensures during == [ExactBackground.Redirect(3, Docs, 0)] && after == []
  {
    var c := ExactBackground.Closure(0, Docs);
    assert DocsPage != Docs;
    ExactBackground.SingleLockCorrectsOnce(c, map[3 := Docs], 3, DocsPage);
    assert ExactBackground.WithoutClosure([c], 0) == [] by {
      assert [c][1..] == [];
    }
    var w := ExactDraftStarted();
    during := w.TabUpdated(3, Some(DocsPage));
    w.FireRemovalTimer(0);
    after := w.TabUpdated(3, Some(DocsPage));
  }

  /** src/background.js restarting a stored lock of 35,792 minutes: the time
      left exceeds the largest setTimeout delay, so both the storage-clearing
      timer and the closure-removal timer are due at once. */
  method ExactDraftLongLockEndsAtOnce() returns (clearDue: seq<int>, removalDue: int)
    ensures clearDue == [2000] && removalDue == 2000
  {
    var record := LockData(Docs, 1000, 35792);
    var st := WriteLock(map[], record);
    ReadAfterWrite(map[], record);
    var w := new ExactBackground.Worker(st, map[]);
    var started := w.Startup(2000);
    clearDue, removalDue := w.clearTimers, w.removalTimers[0].due;
  }

  /** src/background.js restarting a one-minute record from t=1000 that
      expired 2^31 + 1 ms ago, with tab 3 open on the docs site: no
      storage-clearing timer is armed, and the removal timer's negative delay
      wraps to the largest one. */
  method ExactDraftAncientRecordStarted() returns (w: ExactBackground.Worker)
    ensures fresh(w) && w.Valid()
    ensures w.onUpdated == [ExactBackground.Closure(0, Docs)] && w.tabs == map[3 := Docs]
    ensures w.clearTimers == []
    ensures |w.removalTimers| == 1 && w.removalTimers[0].due == 61000 + 0x8000_0001 + MaxTimerDelay
  {
    var st := WriteLock(map[], LockData(Docs, 1000, 1));
    ReadAfterWrite(map[], LockData(Docs, 1000, 1));
    w := new ExactBackground.Worker(st, map[3 := Docs]);
    var started := w.Startup(61000 + 0x8000_0001);
  }

  /** The stale closure of that restart stays installed until its removal
      timer, 2^31 - 1 ms (about 24.8 days) later, and keeps sending the tab
      back. */
  method ExactDraftAncientRecordKeepsRedirecting() returns (removalDue: int, during: seq<ExactBackground.Redirect>)
    ensures removalDue == 61000 + 0x8000_0001 + MaxTimerDelay
    ensures during == [ExactBackground.Redirect(3, Docs, 0)]
  {
    var c := ExactBackground.Closure(0, Docs);
    assert DocsPage != Docs;
    ExactBackground.SingleLockCorrectsOnce(c, map[3 := Docs], 3, DocsPage);
    var w := ExactDraftAncientRecordStarted();
    removalDue := w.removalTimers[0].due;
    during := w.TabUpdated(3, Some(DocsPage));
  }
}
