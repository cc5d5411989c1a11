/** The refresh of the shared SSH token (auth/servicedetails.go) by any number of threads. Every step is one access to
    shared data; what only touches a thread's own data is part of such a step. Expiry, waiting and the server are
    nondeterministic. */
module TokenRefresh {
  import opened Wrappers

  type Headers = map<string, string>

  /** A missing key reads as the empty string. */
  function Token(headers: Headers): string {
    if "Authorization" in headers then headers["Authorization"] else ""
  }

  /** Where a thread is in the interceptor; `cur` is the token that its request carried when the interceptor was
      entered. */
  datatype Phase =
    | Idle
    | Checking(cur: string)
    | Wanting(cur: string)
    | Locked(cur: string)
    | Refreshing(cur: string)
    | UrlSet(cur: string, obtained: Headers)
    | Merging(cur: string)
    | Leaving

  /** `own` is the private header map of the thread's request. */
  datatype Thread = Thread(phase: Phase, own: Headers)

  /** The shared fields are `headers` and `url`. `issued` only records history: the url and token of every
      authentication so far, the one made at start-up first. */
  datatype State = State(
    threads: seq<Thread>, holder: Option<nat>, headers: Headers, url: string, issued: seq<(string, string)>)

  datatype Event =
    | Create(i: nat)
    | Call(i: nat)
    | StillValid(i: nat)
    | NeedsRefresh(i: nat)
    | Lock(i: nat)
    | Compare(i: nat)
    | AuthenticationFails(i: nat)
    | SetUrl(i: nat, newUrl: string, obtained: Headers)
    | SetHeaders(i: nat)
    | Merge(i: nat)
    | Unlock(i: nat)

  function Init(threads: nat, headers: Headers, url: string): State {
    State(seq(threads, _ => Thread(Idle, headers)), None, headers, url, [(url, Token(headers))])
  }

  function At(s: State, i: nat, p: Phase): State
    requires i < |s.threads|
  {
    s.(threads := s.threads[i := s.threads[i].(phase := p)])
  }

  function Own(s: State, i: nat, p: Phase, own: Headers): State
    requires i < |s.threads|
  {
    s.(threads := s.threads[i := Thread(p, own)])
  }

  predicate Step(s: State, e: Event, t: State) {
    e.i < |s.threads|
    && var i, th := e.i, s.threads[e.i];
    match e
    case Create(_) => th.phase.Idle? && t == Own(s, i, Idle, s.headers)
    case Call(_) => th.phase.Idle? && t == At(s, i, Checking(Token(th.own)))
    case StillValid(_) => th.phase.Checking? && t == At(s, i, Idle)
    case NeedsRefresh(_) => th.phase.Checking? && t == At(s, i, Wanting(th.phase.cur))
    case Lock(_) => th.phase.Wanting? && s.holder.None? && t == At(s, i, Locked(th.phase.cur)).(holder := Some(i))
    case Compare(_) =>
      th.phase.Locked?
      && t == At(s, i, if Token(s.headers) == th.phase.cur then Refreshing(th.phase.cur) else Merging(th.phase.cur))
    case AuthenticationFails(_) => th.phase.Refreshing? && t == At(s, i, Leaving)
    case SetUrl(_, newUrl, obtained) =>
      th.phase.Refreshing? && t == At(s, i, UrlSet(th.phase.cur, obtained)).(url := newUrl)
    case SetHeaders(_) =>
      th.phase.UrlSet?
      && t == At(s, i, Merging(th.phase.cur)).(headers := th.phase.obtained,
                                               issued := s.issued + [(s.url, Token(th.phase.obtained))])
    case Merge(_) => th.phase.Merging? && t == Own(s, i, Leaving, th.own + s.headers)
    case Unlock(_) => th.phase.Leaving? && t == At(s, i, Idle).(holder := None)
  }

  /** A successful authentication obtains a token, and never one that was obtained before. */
  ghost predicate Fresh(s: State, e: Event) {
    e.SetUrl? ==>
      "Authorization" in e.obtained && forall k :: 0 <= k < |s.issued| ==> s.issued[k].1 != Token(e.obtained)
  }

  // ----- Invariant -----

  /** `token` was obtained by one of the authentications before the last `newer` ones. */
  ghost predicate Known(s: State, token: string, newer: nat) {
    exists k :: 0 <= k < |s.issued| - newer && s.issued[k].1 == token
  }

  predicate InLock(p: Phase) {
    p.Locked? || p.Refreshing? || p.UrlSet? || p.Merging? || p.Leaving?
  }

  predicate HasCur(p: Phase) {
    !p.Idle? && !p.Leaving?
  }

  ghost predicate ThreadInv(s: State, i: nat)
    requires i < |s.threads|
  {
    var p := s.threads[i].phase;
    && Known(s, Token(s.threads[i].own), 0)
    && (InLock(p) <==> s.holder == Some(i))
    && (HasCur(p) ==> p.cur == Token(s.threads[i].own))
    && (p.Refreshing? || p.UrlSet? ==> p.cur == Token(s.headers))
    && (p.UrlSet? ==>
          "Authorization" in p.obtained && forall k :: 0 <= k < |s.issued| ==> s.issued[k].1 != Token(p.obtained))
    && (p.Merging? ==> Known(s, p.cur, 1) && p.cur != Token(s.headers))
  }

  predicate UrlPending(s: State) {
    s.holder.Some? && s.holder.value < |s.threads| && s.threads[s.holder.value].phase.UrlSet?
  }

  ghost predicate SharedInv(s: State) {
    && s.issued != []
    && Token(s.headers) == s.issued[|s.issued| - 1].1
    && (|s.issued| > 1 ==> "Authorization" in s.headers)
    && (forall j, k :: 0 <= j < k < |s.issued| ==> s.issued[j].1 != s.issued[k].1)
    && (!UrlPending(s) ==> s.url == s.issued[|s.issued| - 1].0)
    && (s.holder.Some? ==> s.holder.value < |s.threads|)
  }

  ghost predicate Inv(s: State) {
    SharedInv(s) && forall i :: 0 <= i < |s.threads| ==> ThreadInv(s, i)
  }

  lemma KnownGrows(s: State, t: State)
    requires s.issued <= t.issued
    ensures forall token :: Known(s, token, 0) ==> Known(t, token, 0)
    ensures forall token :: Known(s, token, 0) && |s.issued| < |t.issued| ==> Known(t, token, 1)
    ensures forall token :: Known(s, token, 1) ==> Known(t, token, 1)
  {
  }

  lemma StepKeepsShared(s: State, e: Event, t: State)
    requires Inv(s) && Step(s, e, t) && Fresh(s, e)
    ensures SharedInv(t)
  {
    hide Known;
    assert ThreadInv(s, e.i);
    assert s.holder.Some? ==> ThreadInv(s, s.holder.value);
  }

  lemma SharedIsKnown(s: State)
    requires SharedInv(s)
    ensures Known(s, Token(s.headers), 0)
  {
    assert s.issued[|s.issued| - 1].1 == Token(s.headers);
  }

  lemma StepKeepsThread(s: State, e: Event, t: State, i: nat)
    requires Inv(s) && Step(s, e, t) && Fresh(s, e) && i < |s.threads|
    ensures ThreadInv(t, i)
  {
    KnownGrows(s, t);
    assert ThreadInv(s, i) && ThreadInv(s, e.i);
    hide Known, Token;
    SharedIsKnown(s);
    if e.i == i {
      StepKeepsOwnThread(s, e, t);
    } else {
      StepKeepsOtherThread(s, e, t, i);
    }
  }

  /** The thread that takes the step. */
  lemma StepKeepsOwnThread(s: State, e: Event, t: State)
    requires SharedInv(s) && e.i < |s.threads| && ThreadInv(s, e.i) && Step(s, e, t) && Fresh(s, e)
    ensures ThreadInv(t, e.i)
  {
    hide Known;
    KnownGrows(s, t);
    SharedIsKnown(s);
    if e.Compare? {
      StaleIsOlder(s, s.threads[e.i].phase.cur);
    } else if e.Merge? {
      MergedToken(s, s.threads[e.i].own);
    } else if e.SetHeaders? {
      SharedIsReplaced(s, t);
    }
  }

  /** When headers with a new token are stored, the token they replace was issued before. */
  lemma SharedIsReplaced(s: State, t: State)
    requires SharedInv(s) && s.issued <= t.issued && |s.issued| < |t.issued|
    ensures Known(t, Token(s.headers), 1)
  {
    SharedIsKnown(s);
    KnownGrows(s, t);
  }

  lemma MergedToken(s: State, own: Headers)
    ensures Token(own + s.headers) == if "Authorization" in s.headers then Token(s.headers) else Token(own)
  {
  }

  /** Any other thread. */
  lemma StepKeepsOtherThread(s: State, e: Event, t: State, i: nat)
    requires SharedInv(s) && i < |s.threads| && e.i < |s.threads| && e.i != i
    requires ThreadInv(s, i) && ThreadInv(s, e.i) && Step(s, e, t) && Fresh(s, e)
    ensures ThreadInv(t, i)
  {
    hide Known;
    KnownGrows(s, t);
  }

  /** A known token that is not the shared one was obtained before the last authentication. */
  lemma StaleIsOlder(s: State, cur: string)
    requires SharedInv(s) && Known(s, cur, 0)
    ensures cur != Token(s.headers) ==> Known(s, cur, 1)
  {
    var k :| 0 <= k < |s.issued| && s.issued[k].1 == cur;
  }

  lemma StepKeepsInv(s: State, e: Event, t: State)
    requires Inv(s) && Step(s, e, t) && Fresh(s, e)
    ensures Inv(t) && s.issued <= t.issued && |t.threads| == |s.threads|
  {
    hide ThreadInv, SharedInv;
    StepKeepsShared(s, e, t);
    forall i | 0 <= i < |s.threads|
      ensures ThreadInv(t, i)
    {
      StepKeepsThread(s, e, t, i);
    }
  }

  // ----- Runs -----

  datatype Run = Run(states: seq<State>, events: seq<Event>)

  ghost predicate IsRun(r: Run) {
    && |r.states| == |r.events| + 1
    && (exists threads, headers, url :: r.states[0] == Init(threads, headers, url))
    && forall k :: 0 <= k < |r.events| ==>
         Step(r.states[k], r.events[k], r.states[k + 1]) && Fresh(r.states[k], r.events[k])
  }

  lemma {:induction false} RunKeepsInv(r: Run, k: nat)
    requires IsRun(r) && k < |r.states|
    ensures Inv(r.states[k])
  {
    if k > 0 {
      RunKeepsInv(r, k - 1);
      assert Step(r.states[k - 1], r.events[k - 1], r.states[k]) && Fresh(r.states[k - 1], r.events[k - 1]);
      StepKeepsInv(r.states[k - 1], r.events[k - 1], r.states[k]);
    } else {
      assert Known(r.states[0], Token(r.states[0].headers), 0) by {
        assert r.states[0].issued[0].1 == Token(r.states[0].headers);
      }
    }
  }

  lemma {:induction false} IssuedGrows(r: Run, j: nat, k: nat)
    requires IsRun(r) && j <= k < |r.states|
    ensures r.states[j].issued <= r.states[k].issued
  {
    if j < k {
      IssuedGrows(r, j, k - 1);
      assert Step(r.states[k - 1], r.events[k - 1], r.states[k]);
    }
  }

  /** Mutual exclusion: at every moment of every run at most one thread is inside the lock. */
  lemma MutualExclusion(r: Run, k: nat, i: nat, j: nat)
    requires IsRun(r) && k < |r.states| && i < |r.states[k].threads| && j < |r.states[k].threads|
    requires InLock(r.states[k].threads[i].phase) && InLock(r.states[k].threads[j].phase)
    ensures i == j
  {
    RunKeepsInv(r, k);
    assert ThreadInv(r.states[k], i) && ThreadInv(r.states[k], j);
  }

  /** In every interleaving each token is replaced by at most one authentication: two replacements of the shared
      headers were started for different tokens, and each replaced the very token that its thread had found stale. */
  lemma OncePerToken(r: Run, j: nat, k: nat)
    requires IsRun(r) && j < k < |r.events| && r.events[j].SetHeaders? && r.events[k].SetHeaders?
    ensures r.events[j].i < |r.states[j].threads| && r.states[j].threads[r.events[j].i].phase.UrlSet?
    ensures r.events[k].i < |r.states[k].threads| && r.states[k].threads[r.events[k].i].phase.UrlSet?
    ensures var stale := r.states[j].threads[r.events[j].i].phase.cur;
            stale == Token(r.states[j].headers)
            && stale != Token(r.states[j + 1].headers)
            && stale != r.states[k].threads[r.events[k].i].phase.cur
  {
    assert Step(r.states[j], r.events[j], r.states[j + 1]) && Step(r.states[k], r.events[k], r.states[k + 1]);
    RunKeepsInv(r, j);
    RunKeepsInv(r, j + 1);
    RunKeepsInv(r, k);
    IssuedGrows(r, j + 1, k);
    assert ThreadInv(r.states[j], r.events[j].i) && ThreadInv(r.states[k], r.events[k].i);
    OlderDiffers(r.states[j], r.states[k]);
    OlderDiffers(r.states[j], r.states[j + 1]);
  }

  lemma OlderDiffers(s: State, t: State)
    requires SharedInv(s) && SharedInv(t) && s.issued <= t.issued && |s.issued| < |t.issued|
    ensures Token(s.headers) != Token(t.headers)
  {
    assert t.issued[|s.issued| - 1] == s.issued[|s.issued| - 1];
  }

  /** A thread that takes the refresh path to its end leaves with the shared token, which was obtained after the token
      that the thread came with, and keeps every private header that the shared headers do not set. */
  lemma LeavesWithShared(r: Run, k: nat)
    requires IsRun(r) && k < |r.events| && r.events[k].Merge?
    ensures r.events[k].i < |r.states[k].threads| && |r.states[k + 1].threads| == |r.states[k].threads|
    ensures var i, s, t := r.events[k].i, r.states[k], r.states[k + 1];
            && s.threads[i].phase.Merging?
            && t.threads[i].own == s.threads[i].own + s.headers
            && t.issued != []
            && Token(t.threads[i].own) == Token(t.headers) == t.issued[|t.issued| - 1].1
            && Token(t.threads[i].own) != s.threads[i].phase.cur == Token(s.threads[i].own)
            && Known(s, s.threads[i].phase.cur, 1)
  {
    assert Step(r.states[k], r.events[k], r.states[k + 1]);
    RunKeepsInv(r, k);
    assert ThreadInv(r.states[k], r.events[k].i);
  }

  /** A new request carries the shared headers, and with them the token of the last authentication. */
  lemma CreatedIsCurrent(r: Run, k: nat)
    requires IsRun(r) && k < |r.events| && r.events[k].Create?
    ensures r.events[k].i < |r.states[k + 1].threads| && r.states[k + 1].issued != []
    ensures var t := r.states[k + 1];
            && t.threads[r.events[k].i].own == t.headers
            && Token(t.threads[r.events[k].i].own) == t.issued[|t.issued| - 1].1
  {
    assert Step(r.states[k], r.events[k], r.states[k + 1]);
    RunKeepsInv(r, k + 1);
  }

  /** Outside the window between the two writes of an authentication, the shared address belongs to the shared token. */
  lemma UrlBelongsToToken(r: Run, k: nat)
    requires IsRun(r) && k < |r.states|
    ensures var s := r.states[k];
            s.issued != [] && (!UrlPending(s) ==> s.issued[|s.issued| - 1] == (s.url, Token(s.headers)))
  {
    RunKeepsInv(r, k);
  }

  /** The thread `i` can take a step. */
  ghost predicate CanStep(s: State, i: nat) {
    exists e: Event, t: State :: e.i == i && Step(s, e, t)
  }

  /** No deadlock: a thread that is in a call can step, unless it waits for the lock, and then the thread that holds
      the lock can. */
  lemma NoDeadlock(r: Run, k: nat, i: nat)
    requires IsRun(r) && k < |r.states| && i < |r.states[k].threads|
    ensures var s := r.states[k];
            CanStep(s, i) ||
            (s.threads[i].phase.Wanting? && s.holder.Some? && s.holder.value != i && CanStep(s, s.holder.value))
  {
    RunKeepsInv(r, k);
    var s := r.states[k];
    assert ThreadInv(s, i);
    if s.threads[i].phase.Wanting? {
      if s.holder.None? {
        var cur := s.threads[i].phase.cur;
        assert Step(s, Lock(i), At(s, i, Locked(cur)).(holder := Some(i)));
      } else {
        assert ThreadInv(s, s.holder.value);
        CanStepAlone(s, s.holder.value);
      }
    } else {
      CanStepAlone(s, i);
    }
  }

  lemma CanStepAlone(s: State, i: nat)
    requires i < |s.threads| && !s.threads[i].phase.Wanting?
    ensures CanStep(s, i)
  {
    var th := s.threads[i];
    match th.phase
    case Idle => assert Step(s, Call(i), At(s, i, Checking(Token(th.own))));
    case Checking(cur) => assert Step(s, StillValid(i), At(s, i, Idle));
    case Locked(cur) =>
      assert Step(s, Compare(i), At(s, i, if Token(s.headers) == cur then Refreshing(cur) else Merging(cur)));
    case Refreshing(_) => assert Step(s, AuthenticationFails(i), At(s, i, Leaving));
    case UrlSet(cur, obtained) =>
      var issued := s.issued + [(s.url, Token(obtained))];
      assert Step(s, SetHeaders(i), At(s, i, Merging(cur)).(headers := obtained, issued := issued));
    case Merging(_) => assert Step(s, Merge(i), Own(s, i, Leaving, th.own + s.headers));
    case Leaving => assert Step(s, Unlock(i), At(s, i, Idle).(holder := None));
  }

  // ----- A run that refreshes -----

  lemma Longer(r: Run, e: Event, t: State) returns (q: Run)
    requires IsRun(r) && Step(r.states[|r.events|], e, t) && Fresh(r.states[|r.events|], e)
    ensures IsRun(q) && |q.events| == |r.events| + 1 && q.states[|q.events|] == t && q.states[0] == r.states[0]
  {
    hide Step, Fresh;
    q := Run(r.states + [t], r.events + [e]);
    forall k | 0 <= k < |q.events|
      ensures Step(q.states[k], q.events[k], q.states[k + 1]) && Fresh(q.states[k], q.events[k])
    {
      if k < |r.events| {
        assert Step(r.states[k], r.events[k], r.states[k + 1]) && Fresh(r.states[k], r.events[k]);
      }
    }
    assert q.states[0] == r.states[0];
  }

  /** A thread that is alone enters the lock and compares its token with the shared one. */
  lemma Enters(r: Run, i: nat) returns (q: Run)
    requires IsRun(r)
    requires var s := r.states[|r.events|]; i < |s.threads| && s.threads[i].phase.Idle? && s.holder.None?
    ensures IsRun(q) && q.states[0] == r.states[0]
    ensures var s := r.states[|r.events|];
            var token := Token(s.threads[i].own);
            q.states[|q.events|]
            == At(s, i, if Token(s.headers) == token then Refreshing(token) else Merging(token)).(holder := Some(i))
  {
    var s := r.states[|r.events|];
    var token := Token(s.threads[i].own);
    q := Longer(r, Call(i), At(s, i, Checking(token)));
    q := Longer(q, NeedsRefresh(i), At(s, i, Wanting(token)));
    q := Longer(q, Lock(i), At(s, i, Locked(token)).(holder := Some(i)));
    var next := if Token(s.headers) == token then Refreshing(token) else Merging(token);
    q := Longer(q, Compare(i), At(s, i, next).(holder := Some(i)));
  }

  /** A thread that holds the lock and merges leaves with the shared headers. */
  lemma Leaves(r: Run, i: nat) returns (q: Run)
    requires IsRun(r)
    requires var s := r.states[|r.events|]; i < |s.threads| && s.threads[i].phase.Merging?
    ensures IsRun(q) && q.states[0] == r.states[0]
    ensures var s := r.states[|r.events|];
            q.states[|q.events|] == Own(s, i, Idle, s.threads[i].own + s.headers).(holder := None)
  {
    var s := r.states[|r.events|];
    var own := s.threads[i].own + s.headers;
    q := Longer(r, Merge(i), Own(s, i, Leaving, own));
    q := Longer(q, Unlock(i), Own(s, i, Idle, own).(holder := None));
  }

  /** One authentication serves all threads: some run lets the first thread authenticate, and ends with every thread
      holding the new headers over its own. */
  lemma OneServesAll(threads: nat, headers: Headers, url: string, newUrl: string, obtained: Headers) returns (r: Run)
    requires threads > 0 && "Authorization" in obtained && Token(obtained) != Token(headers)
    ensures IsRun(r) && r.states[0] == Init(threads, headers, url)
    ensures var end := r.states[|r.events|];
            && end.headers == obtained && end.url == newUrl && end.holder.None?
            && end.issued == [(url, Token(headers)), (newUrl, Token(obtained))]
            && |end.threads| == threads
            && forall i :: 0 <= i < threads ==> end.threads[i] == Thread(Idle, headers + obtained)
  {
    hide Step, Fresh;
    r := FirstRefreshes(threads, headers, url, newUrl, obtained);
    for n := 1 to threads
      invariant IsRun(r) && r.states[0] == Init(threads, headers, url)
      invariant r.states[|r.events|] == ServedUpTo(threads, headers, url, newUrl, obtained, n)
    {
      r := Enters(r, n);
      r := Leaves(r, n);
      NextServed(threads, headers, url, newUrl, obtained, n, r.states[|r.events|]);
    }
  }

  /** The first `n` threads have the new headers. */
  function ServedUpTo(threads: nat, headers: Headers, url: string, newUrl: string, obtained: Headers, n: nat): State {
    State(seq(threads, i => Thread(Idle, if i < n then headers + obtained else headers)), None, obtained, newUrl,
          [(url, Token(headers)), (newUrl, Token(obtained))])
  }

  lemma NextServed(threads: nat, headers: Headers, url: string, newUrl: string, obtained: Headers, n: nat, s: State)
    requires n < threads
    requires var before := ServedUpTo(threads, headers, url, newUrl, obtained, n);
             s.threads == before.threads[n := Thread(Idle, headers + obtained)]
             && s.holder.None? && s.headers == obtained && s.url == newUrl && s.issued == before.issued
    ensures s == ServedUpTo(threads, headers, url, newUrl, obtained, n + 1)
  {
    assert s.threads == ServedUpTo(threads, headers, url, newUrl, obtained, n + 1).threads;
  }

  lemma FirstRefreshes(threads: nat, headers: Headers, url: string, newUrl: string, obtained: Headers)
    returns (r: Run)
    requires threads > 0 && "Authorization" in obtained && Token(obtained) != Token(headers)
    ensures IsRun(r) && r.states[0] == Init(threads, headers, url)
    ensures r.states[|r.events|] == ServedUpTo(threads, headers, url, newUrl, obtained, 1)
  {
    var start := Init(threads, headers, url);
    r := Run([start], []);
    r := Enters(r, 0);
    var s := r.states[|r.events|];
    var token := Token(headers);
    assert s == At(start, 0, Refreshing(token)).(holder := Some(0));
    var t := At(s, 0, UrlSet(token, obtained)).(url := newUrl);
    r := Longer(r, SetUrl(0, newUrl, obtained), t);
    var issued := [(url, token), (newUrl, Token(obtained))];
    assert t.issued + [(t.url, Token(obtained))] == issued;
    r := Longer(r, SetHeaders(0), At(t, 0, Merging(token)).(headers := obtained, issued := issued));
    r := Leaves(r, 0);
    assert r.states[|r.events|].threads == ServedUpTo(threads, headers, url, newUrl, obtained, 1).threads;
  }
}
