/** src/background.js: the exact-match background worker. On start-up it
    restarts a lock found in storage: it arms a timer that clears the stored
    record, installs a redirectListener closure on tabs.onUpdated that sends any
    tab whose URL changes to something other than the locked URL back to it, and
    arms a timer that removes that same closure. */
module ExactBackground {
  import opened Chrome

  /** One redirectListener closure: the startLock call that made it, and the
      locked URL it captured. */
  datatype Closure = Closure(id: nat, lockedUrl: string)

  /** A `chrome.tabs.update(tabId, { url })` call, with the closure that made it. */
  datatype Redirect = Redirect(tabId: int, url: string, from: nat)

  /** A pending listener-removal timer (lines 27-29): when it is due and the
      closure it removes. */
  datatype RemovalTimer = RemovalTimer(due: int, closure: nat)

  /** Lines 16-21: the closure redirects when `changeInfo.url` is present, not
      empty, and not exactly the locked URL. */
  function RedirectListener(c: Closure, tabId: int, changeUrl: Option<string>): (r: Option<Redirect>)
    ensures r.Some? <==> changeUrl.Some? && changeUrl.value != "" && changeUrl.value != c.lockedUrl
    ensures r.Some? ==> r.value == Redirect(tabId, c.lockedUrl, c.id)
  {
    if changeUrl.Some? && changeUrl.value != "" && changeUrl.value != c.lockedUrl
    then Some(Redirect(tabId, c.lockedUrl, c.id))
    else None
  }

  /** The tabs.update calls one onUpdated event produces: each registered
      closure, in registration order, gets the event. */
  function Dispatch(listeners: seq<Closure>, tabId: int, changeUrl: Option<string>): (rs: seq<Redirect>)
    ensures |rs| <= |listeners|
    ensures forall i :: 0 <= i < |rs| ==> rs[i].tabId == tabId
    ensures changeUrl.None? ==> rs == []
  {
    if listeners == [] then []
    else
      (match RedirectListener(listeners[0], tabId, changeUrl)
       case Some(r) => [r]
       case None => [])
      + Dispatch(listeners[1..], tabId, changeUrl)
  }

  /** The browser carries out the updates in order; the last one to a tab
      wins: a tab no update names keeps its URL, and a tab some update names
      ends on the URL of the last such update. */
  function ApplyRedirects(tabs: map<int, string>, rs: seq<Redirect>): (r: map<int, string>)
    ensures tabs.Keys <= r.Keys
    ensures forall i :: 0 <= i < |rs| ==> rs[i].tabId in r
    ensures forall t :: t in tabs && (forall i :: 0 <= i < |rs| ==> rs[i].tabId != t) ==> r[t] == tabs[t]
    ensures forall i :: 0 <= i < |rs| && (forall j :: i < j < |rs| ==> rs[j].tabId != rs[i].tabId) ==>
      r[rs[i].tabId] == rs[i].url
    decreases |rs|
  {
    if rs == [] then tabs
    else
      var r := ApplyRedirects(tabs[rs[0].tabId := rs[0].url], rs[1..]);
      assert forall i :: 1 <= i < |rs| ==> rs[1..][i - 1] == rs[i];
      r
  }

  /** The registered closures without the one with the given id. */
  function WithoutClosure(listeners: seq<Closure>, id: nat): (r: seq<Closure>)
    ensures |r| <= |listeners|
    ensures forall i :: 0 <= i < |r| ==> r[i].id != id
  {
    if listeners == [] then []
    else if listeners[0].id == id then WithoutClosure(listeners[1..], id)
    else [listeners[0]] + WithoutClosure(listeners[1..], id)
  }

  predicate DistinctIds(listeners: seq<Closure>)
  {
    forall i, j :: 0 <= i < j < |listeners| ==> listeners[i].id != listeners[j].id
  }

  /** An event yields update `r` exactly when some registered closure issues it. */
  lemma {:induction false} DispatchExactly(listeners: seq<Closure>, tabId: int, changeUrl: Option<string>, r: Redirect)
    ensures r in Dispatch(listeners, tabId, changeUrl) <==>
      exists c :: c in listeners && RedirectListener(c, tabId, changeUrl) == Some(r)
    decreases |listeners|
  {
    if listeners != [] {
      DispatchExactly(listeners[1..], tabId, changeUrl, r);
      assert listeners == [listeners[0]] + listeners[1..];
      if exists c :: c in listeners && RedirectListener(c, tabId, changeUrl) == Some(r) {
        var c :| c in listeners && RedirectListener(c, tabId, changeUrl) == Some(r);
        if c != listeners[0] {
          assert c in listeners[1..];
        }
      }
    }
  }

  /** A closure issues no update for an event reporting the URL it redirects
      to, so a corrective navigation that lands on that URL does not set it
      off again; and an event without a URL (a status change) redirects
      nothing. */
  lemma NoRedirectLoop(c: Closure, tabId: int, changeUrl: Option<string>)
    requires RedirectListener(c, tabId, changeUrl).Some?
    ensures RedirectListener(c, tabId, Some(RedirectListener(c, tabId, changeUrl).value.url)) == None
    ensures RedirectListener(c, tabId, None) == None
  {
  }

  /** Matching is exact, not by prefix: while one lock is installed, moving to
      any other page of the locked site is redirected as well. */
  lemma SubPageIsRedirected(c: Closure, tabId: int, path: string)
    requires path != ""
    ensures RedirectListener(c, tabId, Some(c.lockedUrl + path)) == Some(Redirect(tabId, c.lockedUrl, c.id))
  {
    assert |c.lockedUrl + path| > |c.lockedUrl|;
  }

  /** With a single closure installed, a navigation away produces exactly one
      corrective update, the tab ends on the locked URL, and the event that
      update raises produces none. */
  lemma SingleLockCorrectsOnce(c: Closure, tabs: map<int, string>, tabId: int, url: string)
    requires url != "" && url != c.lockedUrl
    ensures Dispatch([c], tabId, Some(url)) == [Redirect(tabId, c.lockedUrl, c.id)]
    ensures ApplyRedirects(tabs[tabId := url], Dispatch([c], tabId, Some(url)))[tabId] == c.lockedUrl
    ensures Dispatch([c], tabId, Some(c.lockedUrl)) == []
  {
    assert [c][1..] == [];
    var rs := Dispatch([c], tabId, Some(url));
    assert rs[1..] == [];
  }

  /** Removing a closure by id keeps every other closure and drops that one. */
  lemma {:induction false} WithoutClosureExactly(listeners: seq<Closure>, id: nat, c: Closure)
    ensures c in WithoutClosure(listeners, id) <==> c in listeners && c.id != id
    decreases |listeners|
  {
    if listeners != [] {
      WithoutClosureExactly(listeners[1..], id, c);
      assert listeners == [listeners[0]] + listeners[1..];
    }
  }

  /** With distinct ids, removing a registered closure shortens the list by
      exactly one: precisely that closure goes. */
  lemma {:induction false} WithoutClosureRemovesOne(listeners: seq<Closure>, id: nat)
    requires DistinctIds(listeners)
    requires exists i :: 0 <= i < |listeners| && listeners[i].id == id
    ensures |WithoutClosure(listeners, id)| == |listeners| - 1
    decreases |listeners|
  {
    var tail := listeners[1..];
    if listeners[0].id == id {
      forall c | c in tail ensures c.id != id {
        var j :| 0 <= j < |tail| && tail[j] == c;
        assert listeners[j + 1] == c;
      }
      WithoutClosureAbsent(tail, id);
    } else {
      var i :| 0 <= i < |listeners| && listeners[i].id == id;
      assert tail[i - 1].id == id;
      WithoutClosureRemovesOne(tail, id);
    }
  }

  lemma {:induction false} WithoutClosureAbsent(listeners: seq<Closure>, id: nat)
    requires forall c :: c in listeners ==> c.id != id
    ensures WithoutClosure(listeners, id) == listeners
    decreases |listeners|
  {
    if listeners != [] {
      assert listeners[0] in listeners;
      forall c | c in listeners[1..] ensures c.id != id {
        assert c in listeners;
      }
      WithoutClosureAbsent(listeners[1..], id);
    }
  }

  /** The worker's state and the parts of the browser it changes. */
  class Worker {
    var storage: Storage
    var tabs: map<int, string>
    /** The closures registered on tabs.onUpdated, in registration order. */
    var onUpdated: seq<Closure>
    /** The id the next startLock call gives its closure. */
    var nextId: nat
    /** Pending storage-clearing timers (lines 11-13), by due time. */
    var clearTimers: seq<int>
    var removalTimers: seq<RemovalTimer>

    /** Every closure has its own id, handed out by an earlier startLock. */
    ghost predicate Valid()
      reads this
    {
      && (forall i :: 0 <= i < |onUpdated| ==> onUpdated[i].id < nextId)
      && DistinctIds(onUpdated)
      && (forall k :: 0 <= k < |removalTimers| ==> removalTimers[k].closure < nextId)
    }

    /** A freshly loaded worker over the given store and tabs. */
    constructor (st: Storage, openTabs: map<int, string>)
      ensures Valid()
      ensures storage == st && tabs == openTabs
      ensures onUpdated == [] && nextId == 0 && clearTimers == [] && removalTimers == []
    {
      storage, tabs := st, openTabs;
      onUpdated, nextId, clearTimers, removalTimers := [], 0, [], [];
    }

    /** Lines 3-30: compute the deadline and the time left; arm the
        storage-clearing timer only if time is left; register a new closure and
        arm a timer that removes exactly that closure after the time left. Each
        timer is due after the delay setTimeout makes of the time left: at
        once when that lies in [-2^31, 0] or in [2^31, 2^32), and otherwise
        wrapped modulo 2^32 into [0, 2^31). Returns the id of the new
        closure. */
    method StartLock(d: LockData, now: int) returns (id: nat)
      requires Valid()
      modifies this
      ensures Valid()
      ensures id == old(nextId) && nextId == id + 1
      ensures forall c :: c in old(onUpdated) ==> c.id != id
      ensures onUpdated == old(onUpdated) + [Closure(id, d.lockedUrl)]
      ensures clearTimers == old(clearTimers) +
        (if LockEndTime(d) - now > 0 then [now + TimerDelay(LockEndTime(d) - now)] else [])
      ensures removalTimers == old(removalTimers) + [RemovalTimer(now + TimerDelay(LockEndTime(d) - now), id)]
      ensures storage == old(storage) && tabs == old(tabs)
    {
      var lockEndTime := LockEndTime(d);
      var remainingTime := lockEndTime - now;
      if remainingTime > 0 {
        clearTimers := clearTimers + [now + TimerDelay(remainingTime)];
      }
      id := nextId;
      nextId := nextId + 1;
      onUpdated := onUpdated + [Closure(id, d.lockedUrl)];
      removalTimers := removalTimers + [RemovalTimer(now + TimerDelay(remainingTime), id)];
    }

    /** Lines 33-37: a complete record in storage starts the lock; otherwise
        nothing happens. Returns whether it started. */
    method Startup(now: int) returns (started: bool)
      requires Valid()
      modifies this
      ensures Valid()
      ensures started == ReadLock(old(storage)).Some?
      ensures started ==>
        var d := ReadLock(old(storage)).value;
        var end := LockEndTime(d);
        && onUpdated == old(onUpdated) + [Closure(old(nextId), d.lockedUrl)]
        && nextId == old(nextId) + 1
        && clearTimers == old(clearTimers) + (if end - now > 0 then [now + TimerDelay(end - now)] else [])
        && removalTimers == old(removalTimers) + [RemovalTimer(now + TimerDelay(end - now), old(nextId))]
      ensures !started ==>
        onUpdated == old(onUpdated) && nextId == old(nextId)
        && clearTimers == old(clearTimers) && removalTimers == old(removalTimers)
      ensures storage == old(storage) && tabs == old(tabs)
    {
      started := false;
      match ReadLock(storage)
      case Some(d) =>
        var _ := StartLock(d, now);
        started := true;
      case None =>
    }

    /** Lines 11-13: a storage-clearing timer fires and removes the three keys. */
    method FireClearTimer(k: nat)
      requires Valid()
      requires k < |clearTimers|
      modifies this
      ensures Valid()
      ensures storage == RemoveLock(old(storage))
      ensures ReadLock(storage) == None
      ensures clearTimers == old(clearTimers[..k] + clearTimers[k + 1..])
      ensures tabs == old(tabs) && onUpdated == old(onUpdated) && nextId == old(nextId)
      ensures removalTimers == old(removalTimers)
    {
      storage := RemoveLock(storage);
      ReadAfterRemove(old(storage));
      clearTimers := clearTimers[..k] + clearTimers[k + 1..];
    }

    /** Lines 27-29: a removal timer fires and unregisters the closure its
        startLock call registered; from then on that closure redirects nothing. */
    method FireRemovalTimer(k: nat)
      requires Valid()
      requires k < |removalTimers|
      modifies this
      ensures Valid()
      ensures var id := old(removalTimers[k].closure);
        && onUpdated == WithoutClosure(old(onUpdated), id)
        && (forall c :: c in onUpdated <==> c in old(onUpdated) && c.id != id)
        && ((exists i :: 0 <= i < |old(onUpdated)| && old(onUpdated)[i].id == id) ==>
              |onUpdated| == |old(onUpdated)| - 1)
        && (forall tabId, changeUrl, r :: r in Dispatch(onUpdated, tabId, changeUrl) ==> r.from != id)
      ensures removalTimers == old(removalTimers[..k] + removalTimers[k + 1..])
      ensures storage == old(storage) && tabs == old(tabs) && nextId == old(nextId)
      ensures clearTimers == old(clearTimers)
    {
      var id := removalTimers[k].closure;
      RemovalKeepsOthers(onUpdated, id, nextId);
      onUpdated := WithoutClosure(onUpdated, id);
      removalTimers := removalTimers[..k] + removalTimers[k + 1..];
    }

    /** A tab's URL changes (or some other property, when `changeUrl` is None):
        the browser reports it to every registered closure and carries out the
        updates they issue. Returns those updates. */
    method TabUpdated(tabId: int, changeUrl: Option<string>) returns (issued: seq<Redirect>)
      modifies this`tabs
      ensures issued == Dispatch(onUpdated, tabId, changeUrl)
      ensures forall r :: r in issued ==>
        exists c :: c in onUpdated && RedirectListener(c, tabId, changeUrl) == Some(r)
      ensures tabs == ApplyRedirects(
        if changeUrl.Some? then old(tabs)[tabId := changeUrl.value] else old(tabs), issued)
    {
      if changeUrl.Some? {
        tabs := tabs[tabId := changeUrl.value];
      }
      issued := Dispatch(onUpdated, tabId, changeUrl);
      tabs := ApplyRedirects(tabs, issued);
      forall r | r in issued ensures exists c :: c in onUpdated && RedirectListener(c, tabId, changeUrl) == Some(r) {
        DispatchExactly(onUpdated, tabId, changeUrl, r);
      }
    }
  }

  /** What removing closure `id` from a well-formed registry leaves: every
      other closure and no other, one fewer when `id` was registered, no update
      from `id` any more, and still distinct ids below `bound`. */
  lemma RemovalKeepsOthers(before: seq<Closure>, id: nat, bound: nat)
    requires DistinctIds(before)
    requires forall i :: 0 <= i < |before| ==> before[i].id < bound
    ensures var after := WithoutClosure(before, id);
      && (forall c :: c in after <==> c in before && c.id != id)
      && ((exists i :: 0 <= i < |before| && before[i].id == id) ==> |after| == |before| - 1)
      && (forall tabId, changeUrl, r :: r in Dispatch(after, tabId, changeUrl) ==> r.from != id)
      && DistinctIds(after)
      && (forall i :: 0 <= i < |after| ==> after[i].id < bound)
  {
    var after := WithoutClosure(before, id);
    forall c ensures c in after <==> c in before && c.id != id {
      WithoutClosureExactly(before, id, c);
    }
    if exists i :: 0 <= i < |before| && before[i].id == id {
      WithoutClosureRemovesOne(before, id);
    }
    forall tabId, changeUrl, r | r in Dispatch(after, tabId, changeUrl) ensures r.from != id {
      DispatchExactly(after, tabId, changeUrl, r);
    }
    forall i, j | 0 <= i < j < |after| ensures after[i].id != after[j].id {
      var a, b := WithoutClosureOrder(before, id, i, j);
    }
    forall i | 0 <= i < |after| ensures after[i].id < bound {
      assert after[i] in after;
    }
  }

  /** Every survivor of a removal is an entry of the original list. */
  lemma {:induction false} WithoutClosureIndex(listeners: seq<Closure>, id: nat, i: nat)
    returns (a: nat)
    requires i < |WithoutClosure(listeners, id)|
    ensures a < |listeners| && listeners[a] == WithoutClosure(listeners, id)[i]
    decreases |listeners|
  {
    var tail := listeners[1..];
    if listeners[0].id == id {
      a := WithoutClosureIndex(tail, id, i);
      a := a + 1;
    } else if i == 0 {
      a := 0;
    } else {
      a := WithoutClosureIndex(tail, id, i - 1);
      a := a + 1;
    }
  }

  /** Removing a closure keeps the others in their order: survivors `i < j`
      are entries `a < b` of the original list. */
  lemma {:induction false} WithoutClosureOrder(listeners: seq<Closure>, id: nat, i: nat, j: nat)
    returns (a: nat, b: nat)
    requires i < j < |WithoutClosure(listeners, id)|
    ensures a < b < |listeners|
    ensures listeners[a] == WithoutClosure(listeners, id)[i] && listeners[b] == WithoutClosure(listeners, id)[j]
    decreases |listeners|
  {
    var tail := listeners[1..];
    if listeners[0].id == id {
      a, b := WithoutClosureOrder(tail, id, i, j);
      a, b := a + 1, b + 1;
    } else if i == 0 {
      b := WithoutClosureIndex(tail, id, j - 1);
      a, b := 0, b + 1;
    } else {
      a, b := WithoutClosureOrder(tail, id, i - 1, j - 1);
      a, b := a + 1, b + 1;
    }
  }
}
