/** `cachedTokenSource.Token`: callers of one process that share a stored login refresh it and
    store the result under a lock of their cache key, so that a refresh token a rotating
    provider has already exchanged is not presented to it again. */
module TokenCache {
  import opened Options

  const SECOND := 1_000_000_000

  /** An `oauth2.Token`; a zero expiry is `None`, an absent refresh token the empty string. */
  datatype Token = Token(access: string, refresh: string, expiry: Option<int>)

  /** How a call came by the token it is about to store. */
  datatype Origin = Reused | Exchanged | LoggedIn

  datatype Reply = Success(token: Token) | Failure

  datatype Pc =
    | Calling                              // about to take the lock of the key
    | Locked                               // about to read the store
    | Refreshing(cached: Token)            // about to ask the oauth2 source
    | Authorizing(cached: Token)           // running a new login
    | Saving(token: Token, origin: Origin) // about to write the store
    | Leaving(reply: Reply)                // about to unlock and return
    | Returned(reply: Reply)

  datatype Call = Call(key: string, pc: Pc)

  /** The store, the per-key locks with their holders, the provider's account of the refresh
      tokens it issued (and for which key) and has exchanged, and the calls. */
  datatype State = State(
    store: map<string, Token>, locks: map<string, nat>,
    issued: map<string, string>, spent: set<string>, calls: seq<Call>)

  datatype Event =
    | Step
    | Read(now: int, readable: bool)
    | Refresh(now: int, answer: Option<Token>)
    | Lost(now: int, renewed: string)   // the provider exchanges, its answer does not arrive
    | Login(answer: Option<Token>)
    | Save(stored: bool)

  /** `oauth2.Token.Valid`: there is an access token with at least ten seconds to live. */
  predicate Valid(t: Token, now: int) {
    t.access != "" && (t.expiry.Some? ==> now <= t.expiry.value - 10 * SECOND)
  }

  /** The cache answers without a refresh only with more than thirty seconds left. */
  predicate Fresh(t: Token, now: int) {
    Valid(t, now) && (t.expiry.Some? ==> t.expiry.value - now > 30 * SECOND)
  }

  /** The refresh token a step sends to the provider: none when the reuse source finds the
      cached token valid, or there is nothing to send. */
  function Presents(c: Call, e: Event): Option<string> {
    if c.pc.Refreshing? && (e.Refresh? || e.Lost?) && !Valid(c.pc.cached, e.now) && c.pc.cached.refresh != ""
    then Some(c.pc.cached.refresh)
    else None
  }

  /** A rotating provider: it accepts a refresh token once, and answers with a new one. */
  predicate Enabled(s: State, i: nat, e: Event) {
    && i < |s.calls|
    && var c := s.calls[i];
       match c.pc
       case Calling => e == Step && c.key !in s.locks
       case Locked => e.Read?
       case Refreshing(_) =>
         || (e.Lost? && Presents(c, e).Some? && Presents(c, e).value !in s.spent && e.renewed !in s.issued)
         || (e.Refresh?
             && (e.answer.Some? ==>
                   Presents(c, e).Some? ==>
                     && e.answer.value.access != ""
                     && e.answer.value.refresh != "" && e.answer.value.refresh !in s.issued
                     && Presents(c, e).value !in s.spent))
       case Authorizing(_) =>
         && e.Login?
         && (e.answer.Some? ==> e.answer.value.access != "" && e.answer.value.refresh !in s.issued)
       case Saving(_, _) => e.Save?
       case Leaving(_) => e == Step
       case Returned(_) => false
  }

  function Go(s: State, i: nat, pc: Pc): State
    requires i < |s.calls|
  {
    s.(calls := s.calls[i := s.calls[i].(pc := pc)])
  }

  /** The provider hands out a refresh token for `key`, if it hands out one at all. */
  function Issue(s: State, refresh: string, key: string): State {
    if refresh == "" then s else s.(issued := s.issued[refresh := key])
  }

  function Next(s: State, i: nat, e: Event): State
    requires i < |s.calls|
  {
    var c := s.calls[i];
    match c.pc
    case Calling => Go(s.(locks := s.locks[c.key := i]), i, Locked)
    case Locked =>
      if !(e.Read? && e.readable) || c.key !in s.store || s.store[c.key].access == "" then Go(s, i, Leaving(Failure))
      else if Fresh(s.store[c.key], e.now) then Go(s, i, Leaving(Success(s.store[c.key])))
      else Go(s, i, Refreshing(s.store[c.key]))
    case Refreshing(cached) =>
      if e.Refresh? && Valid(cached, e.now) then Go(s, i, Saving(cached, Reused))
      else if e.Refresh? && cached.refresh != "" && e.answer.Some? then
        Go(Issue(s, e.answer.value.refresh, c.key).(spent := s.spent + {cached.refresh}), i,
           Saving(e.answer.value, Exchanged))
      else if e.Lost? then
        Go(Issue(s, e.renewed, c.key).(spent := s.spent + {cached.refresh}), i, Authorizing(cached))
      else Go(s, i, Authorizing(cached))
    case Authorizing(_) =>
      if e.Login? && e.answer.Some?
      then Go(Issue(s, e.answer.value.refresh, c.key), i, Saving(e.answer.value, LoggedIn))
      else Go(s, i, Leaving(Failure))
    case Saving(token, _) =>
      if e.Save? && e.stored && token.access != ""
      then Go(s.(store := s.store[c.key := token]), i, Leaving(Success(token)))
      else Go(s, i, Leaving(Failure))
    case Leaving(reply) => Go(s.(locks := s.locks - {c.key}), i, Returned(reply))
    case Returned(_) => s
  }

  /** A stored login as `pkgdepot login` leaves it, before any of the calls. */
  ghost predicate Start(s: State) {
    && s.locks == map[]
    && (forall i: nat | i < |s.calls| :: s.calls[i].pc == Calling)
    && "" !in s.issued
    && (forall r | r in s.spent :: r in s.issued)
    && (forall k | k in s.store && s.store[k].refresh != "" ::
          s.store[k].refresh in s.issued && s.issued[s.store[k].refresh] == k && s.store[k].refresh !in s.spent)
  }

  // ---------- runs ----------

  ghost function After(s: State, run: seq<(nat, Event)>): State {
    if |run| == 0 then s else
    var (i, e) := run[|run| - 1];
    var before := After(s, run[..|run| - 1]);
    if i < |before.calls| then Next(before, i, e) else before
  }

  ghost predicate Possible(s: State, run: seq<(nat, Event)>) {
    |run| > 0 ==>
      var (i, e) := run[|run| - 1];
      Possible(s, run[..|run| - 1]) && Enabled(After(s, run[..|run| - 1]), i, e)
  }

  /** How one step of call `c` changes whether the store of its key lags behind: a token that
      was exchanged but not stored leaves it behind, a stored new one brings it up to date. */
  predicate Lags(lagging: bool, c: Call, e: Event) {
    if c.pc.Refreshing? && e.Lost? then true
    else if c.pc.Saving? && e.Save? then
      if e.stored && c.pc.token.access != "" then lagging && c.pc.origin == Reused
      else lagging || c.pc.origin == Exchanged
    else lagging
  }

  /** The answer of the last exchange for `key` was lost or could not be written, and no new
      token has been stored since. */
  ghost predicate Lagging(s: State, run: seq<(nat, Event)>, key: string) {
    |run| > 0 &&
    var (i, e) := run[|run| - 1];
    var before := After(s, run[..|run| - 1]);
    var lagging := Lagging(s, run[..|run| - 1], key);
    if i < |before.calls| && before.calls[i].key == key then Lags(lagging, before.calls[i], e) else lagging
  }

  // ---------- the invariant ----------

  predicate Inside(pc: Pc) { !pc.Calling? && !pc.Returned? }

  ghost predicate CallOk(s: State, i: nat)
    requires i < |s.calls|
  {
    var Call(key, pc) := s.calls[i];
    && (Inside(pc) <==> key in s.locks && s.locks[key] == i)
    && ((pc.Refreshing? || pc.Authorizing?) ==> key in s.store && pc.cached == s.store[key] && pc.cached.access != "")
    && (pc.Saving? ==>
          && pc.token.access != ""
          && (pc.token.refresh != "" ==> pc.token.refresh in s.issued && s.issued[pc.token.refresh] == key))
    && (pc.Saving? && pc.origin == Reused ==> key in s.store && pc.token == s.store[key])
    && (pc.Saving? && pc.origin != Reused ==> pc.token.refresh !in s.spent)
    && (pc.Leaving? && pc.reply.Success?
       ==> key in s.store && s.store[key] == pc.reply.token && pc.reply.token.access != "")
  }

  predicate Saves(c: Call, origin: Origin) { c.pc.Saving? && c.pc.origin == origin }

  /** The refresh token stored under a key was issued for it. */
  predicate Owned(s: State, key: string) {
    key in s.store && s.store[key].refresh != "" ==>
      s.store[key].refresh in s.issued && s.issued[s.store[key].refresh] == key
  }

  /** The stored refresh token of `key` has been exchanged exactly if the store lags behind,
      or the holder of the lock has just exchanged it and has yet to store the new one. */
  ghost predicate KeyOk(s: State, key: string, lagging: bool) {
    && (key in s.locks ==> s.locks[key] < |s.calls| && s.calls[s.locks[key]].key == key)
    && Owned(s, key)
    && var exchanging := key in s.locks && Saves(s.calls[s.locks[key]], Exchanged);
       && (exchanging ==> key in s.store && s.store[key].refresh != "" && s.store[key].refresh in s.spent)
       && (!exchanging ==> ((key in s.store && s.store[key].refresh in s.spent) <==> lagging))
       && (lagging ==> key in s.store && s.store[key].refresh in s.spent)
  }

  ghost predicate ProviderOk(s: State) {
    "" !in s.issued && (forall r | r in s.spent :: r in s.issued)
  }

  lemma ProviderStep(s: State, i: nat, e: Event)
    requires Enabled(s, i, e) && ProviderOk(s) && CallOk(s, i)
    requires Owned(s, s.calls[i].key)
    ensures ProviderOk(Next(s, i, e))
  {
    match s.calls[i].pc {
      case Calling => case Locked => case Refreshing(_) => case Authorizing(_) => case Saving(_, _) =>
      case Leaving(_) => case Returned(_) =>
    }
  }

  /** A step keeps the invariant of its own call. */
  lemma OwnStep(s: State, i: nat, e: Event)
    requires Enabled(s, i, e) && ProviderOk(s) && CallOk(s, i) && Owned(s, s.calls[i].key)
    ensures |Next(s, i, e).calls| == |s.calls| && CallOk(Next(s, i, e), i)
  {
    match s.calls[i].pc {
      case Calling => case Locked => case Refreshing(_) => case Authorizing(_) => case Saving(_, _) =>
      case Leaving(_) => case Returned(_) =>
    }
  }

  /** `z` is `s` after a step of call `i` on its key: no other call moved, and nothing of another
      key changed. */
  ghost predicate OnlyKey(s: State, z: State, i: nat, key: string) {
    && i < |s.calls| && |z.calls| == |s.calls|
    && (forall k: nat | k < |s.calls| && k != i :: z.calls[k] == s.calls[k])
    && (forall q | q != key :: (q in z.store <==> q in s.store) && (q in s.store ==> z.store[q] == s.store[q]))
    && (forall q | q != key :: (q in z.locks <==> q in s.locks) && (q in s.locks ==> z.locks[q] == s.locks[q]))
    && (key in s.locks ==> s.locks[key] == i) && (key in z.locks ==> z.locks[key] == i)
    && (forall r | r in s.issued :: r in z.issued && z.issued[r] == s.issued[r])
    && (forall r | r in s.spent :: r in z.spent)
    && (forall r | r in z.spent :: r in s.spent || (r in s.issued && s.issued[r] == key))
  }

  /** Only the holder of a key's lock touches what that key stores or has been issued. */
  lemma StepFrame(s: State, i: nat, e: Event)
    requires Enabled(s, i, e) && ProviderOk(s) && CallOk(s, i) && Owned(s, s.calls[i].key)
    ensures OnlyKey(s, Next(s, i, e), i, s.calls[i].key)
  {
    match s.calls[i].pc {
      case Calling => case Locked => case Refreshing(_) => case Authorizing(_) => case Saving(_, _) =>
      case Leaving(_) => case Returned(_) =>
    }
  }

  /** A step keeps the invariant of every other call. */
  lemma OtherStep(s: State, z: State, i: nat, k: nat)
    requires i < |s.calls| && OnlyKey(s, z, i, s.calls[i].key) && ProviderOk(s)
    requires k < |s.calls| && k != i && CallOk(s, k)
    ensures k < |z.calls| && CallOk(z, k)
  {
  }

  /** A step keeps the invariant of its key. */
  lemma OwnKeyStep(s: State, i: nat, e: Event, lagging: bool)
    requires Enabled(s, i, e) && ProviderOk(s) && CallOk(s, i) && KeyOk(s, s.calls[i].key, lagging)
    ensures KeyOk(Next(s, i, e), s.calls[i].key, Lags(lagging, s.calls[i], e))
  {
    match s.calls[i].pc {
      case Calling => case Locked => case Refreshing(_) => case Authorizing(_) => case Saving(_, _) =>
      case Leaving(_) => case Returned(_) =>
    }
  }

  /** A step keeps the invariant of every other key. */
  lemma OtherKeyStep(s: State, z: State, i: nat, key: string, lagging: bool)
    requires i < |s.calls| && OnlyKey(s, z, i, s.calls[i].key) && ProviderOk(s)
    requires key != s.calls[i].key && z.calls[i].key == s.calls[i].key && KeyOk(s, key, lagging)
    ensures KeyOk(z, key, lagging)
  {
  }

  ghost predicate Inv(start: State, run: seq<(nat, Event)>) {
    var s := After(start, run);
    && ProviderOk(s)
    && (forall i: nat | i < |s.calls| :: CallOk(s, i))
    && (forall key :: KeyOk(s, key, Lagging(start, run, key)))
  }

  lemma StepInv(start: State, run: seq<(nat, Event)>)
    requires |run| > 0 && Inv(start, run[..|run| - 1]) && Possible(start, run)
    ensures Inv(start, run)
  {
    var (i, e) := run[|run| - 1];
    var earlier := run[..|run| - 1];
    var before := After(start, earlier);
    var s := Next(before, i, e);
    assert s == After(start, run) && CallOk(before, i);
    assert KeyOk(before, before.calls[i].key, Lagging(start, earlier, before.calls[i].key));
    ProviderStep(before, i, e);
    forall k: nat | k < |s.calls|
      ensures CallOk(s, k)
    {
      CallStep(start, earlier, i, e, k);
    }
    forall key
      ensures KeyOk(s, key, Lagging(start, run, key))
    {
      KeyStep(start, earlier, i, e, key);
    }
  }

  lemma CallStep(start: State, earlier: seq<(nat, Event)>, i: nat, e: Event, k: nat)
    requires Inv(start, earlier) && Enabled(After(start, earlier), i, e)
             && k < |Next(After(start, earlier), i, e).calls|
    ensures CallOk(Next(After(start, earlier), i, e), k)
  {
    var before := After(start, earlier);
    assert CallOk(before, i) && KeyOk(before, before.calls[i].key, Lagging(start, earlier, before.calls[i].key));
    OwnStep(before, i, e);
    StepFrame(before, i, e);
    if k != i {
      assert CallOk(before, k);
      OtherStep(before, Next(before, i, e), i, k);
    }
  }

  lemma KeyStep(start: State, earlier: seq<(nat, Event)>, i: nat, e: Event, key: string)
    requires Inv(start, earlier) && Enabled(After(start, earlier), i, e)
    ensures var before, lagging := After(start, earlier), Lagging(start, earlier, key);
            KeyOk(Next(before, i, e), key,
                  if before.calls[i].key == key then Lags(lagging, before.calls[i], e) else lagging)
  {
    var before, lagging := After(start, earlier), Lagging(start, earlier, key);
    assert CallOk(before, i) && KeyOk(before, key, lagging);
    assert KeyOk(before, before.calls[i].key, Lagging(start, earlier, before.calls[i].key));
    hide Inv, Next, Enabled, KeyOk, CallOk, Lags, Lagging, After;
    if key == before.calls[i].key {
      OwnKeyStep(before, i, e, lagging);
    } else {
      StepFrame(before, i, e);
      OwnStep(before, i, e);
      OtherKeyStep(before, Next(before, i, e), i, key, lagging);
    }
  }

  lemma {:induction false} ReachableInv(start: State, run: seq<(nat, Event)>)
    requires Start(start) && Possible(start, run)
    ensures Inv(start, run)
  {
    if |run| > 0 {
      ReachableInv(start, run[..|run| - 1]);
      StepInv(start, run);
    }
  }

  // ---------- the theorems ----------

  /** A call presents an exchanged refresh token exactly when the store of its key lags behind,
      that is, when the result of the last exchange was lost on its way or could not be
      stored. */
  lemma PresentedAgainOnlyIfNotStored(start: State, run: seq<(nat, Event)>, i: nat, e: Event)
    requires Start(start) && Possible(start, run) && Enabled(After(start, run), i, e)
    requires Presents(After(start, run).calls[i], e).Some?
    ensures var s := After(start, run);
            Presents(s.calls[i], e).value in s.spent <==> Lagging(start, run, s.calls[i].key)
  {
    ReachableInv(start, run);
    var s := After(start, run);
    assert CallOk(s, i) && KeyOk(s, s.calls[i].key, Lagging(start, run, s.calls[i].key));
  }

  /** Every answer of the provider to an exchange arrives. */
  ghost predicate NoneLost(run: seq<(nat, Event)>) { forall k: nat | k < |run| :: !run[k].1.Lost? }

  /** Every write of the store succeeds. */
  ghost predicate AllWritten(run: seq<(nat, Event)>) {
    forall k: nat | k < |run| :: run[k].1.Save? ==> run[k].1.stored
  }

  lemma {:induction false} StoredNeverLags(start: State, run: seq<(nat, Event)>, key: string)
    requires Start(start) && Possible(start, run) && NoneLost(run) && AllWritten(run)
    ensures !Lagging(start, run, key)
  {
    if |run| > 0 {
      var before := run[..|run| - 1];
      assert !run[|run| - 1].1.Lost? && (run[|run| - 1].1.Save? ==> run[|run| - 1].1.stored);
      StoredNeverLags(start, before, key);
      ReachableInv(start, before);
      assert CallOk(After(start, before), run[|run| - 1].0);
    }
  }

  /** While every answer arrives and every write of the store succeeds, no exchanged refresh
      token is presented again, in whatever order the calls run. */
  lemma ExchangedOnce(start: State, run: seq<(nat, Event)>, i: nat, e: Event)
    requires Start(start) && Possible(start, run) && Enabled(After(start, run), i, e)
    requires NoneLost(run) && AllWritten(run)
    requires Presents(After(start, run).calls[i], e).Some?
    ensures Presents(After(start, run).calls[i], e).value !in After(start, run).spent
  {
    StoredNeverLags(start, run, After(start, run).calls[i].key);
    PresentedAgainOnlyIfNotStored(start, run, i, e);
  }

  /** At every successful return the store holds exactly the token returned, and it cannot be
      one whose refresh token has been exchanged while the store is up to date. */
  lemma ReturnedIsStored(start: State, run: seq<(nat, Event)>, i: nat)
    requires Start(start) && Possible(start, run) && i < |After(start, run).calls|
    requires var pc := After(start, run).calls[i].pc; pc.Leaving? && pc.reply.Success?
    ensures var s := After(start, run); var Call(key, pc) := s.calls[i];
            && key in s.store && s.store[key] == pc.reply.token && pc.reply.token.access != ""
            && Next(s, i, Step).store == s.store
            && Next(s, i, Step).calls[i].pc == Returned(pc.reply)
  {
    ReachableInv(start, run);
    assert CallOk(After(start, run), i);
  }

  // ---------- which token a call returns ----------

  /** What a call was told so far: the token it read and when, when it asked the oauth2 source,
      the token last delivered to it, and whether something it cannot do without failed. */
  datatype Account = Account(read: Option<(Token, int)>, asked: Option<int>, delivered: Option<Token>, failed: bool)

  const NOTHING := Account(None, None, None, false)

  /** One more event; `stored` is what the store holds for the call's key. */
  function Told(was: Account, stored: Option<Token>, e: Event): Account {
    match e
    case Step => was
    case Read(now, readable) =>
      if readable && stored.Some? && stored.value.access != "" then was.(read := Some((stored.value, now)))
      else was.(failed := true)
    case Refresh(now, answer) =>
      was.(asked := Some(now), delivered := if answer.Some? then answer else was.delivered)
    case Lost(now, _) => was.(asked := Some(now))
    case Login(answer) => if answer.Some? then was.(delivered := answer) else was.(failed := true)
    case Save(stored) => if stored then was else was.(failed := true)
  }

  function Stored(s: State, key: string): Option<Token> {
    if key in s.store then Some(s.store[key]) else None
  }

  ghost function AccountOf(start: State, run: seq<(nat, Event)>, i: nat): Account {
    if |run| == 0 then NOTHING else
    var (k, e) := run[|run| - 1];
    var before, was := After(start, run[..|run| - 1]), AccountOf(start, run[..|run| - 1], i);
    if k == i && i < |before.calls| then Told(was, Stored(before, before.calls[i].key), e) else was
  }

  /** The token a call owes: the one it read if that had more than thirty seconds left then, or
      at least ten when it asked for a refresh; otherwise the one delivered to it. */
  predicate Due(a: Account, t: Token) {
    && a.read.Some?
    && var (r, now) := a.read.value;
       && r.access != ""
       && if r.expiry.None? || r.expiry.value - now > 30_000_000_000 then t == r
          else if a.asked.Some? && r.expiry.value - a.asked.value >= 10_000_000_000 then t == r
          else a.asked.Some? && a.delivered == Some(t)
  }

  /** What the point a call has reached says about its account. */
  predicate AccountOk(pc: Pc, a: Account) {
    match pc
    case Calling => a == NOTHING
    case Locked => a == NOTHING
    case Refreshing(cached) =>
      && !a.failed && a.asked.None? && a.read.Some? && a.read.value.0 == cached && cached.access != ""
      && cached.expiry.Some? && cached.expiry.value - a.read.value.1 <= 30_000_000_000
    case Authorizing(cached) =>
      && !a.failed && a.asked.Some? && a.read.Some? && a.read.value.0 == cached && cached.access != ""
      && cached.expiry.Some? && cached.expiry.value - a.read.value.1 <= 30_000_000_000
      && cached.expiry.value - a.asked.value < 10_000_000_000
    case Saving(token, _) => !a.failed && Due(a, token)
    case Leaving(reply) => if reply.Success? then !a.failed && Due(a, reply.token) else a.failed
    case Returned(reply) => if reply.Success? then !a.failed && Due(a, reply.token) else a.failed
  }

  lemma AccountStep(s: State, i: nat, e: Event, a: Account)
    requires Enabled(s, i, e) && CallOk(s, i) && AccountOk(s.calls[i].pc, a)
    ensures AccountOk(Next(s, i, e).calls[i].pc, Told(a, Stored(s, s.calls[i].key), e))
  {
    match s.calls[i].pc {
      case Calling => case Locked => case Refreshing(_) => case Authorizing(_) => case Saving(_, _) =>
      case Leaving(_) => case Returned(_) =>
    }
  }

  lemma {:induction false} AccountKept(start: State, run: seq<(nat, Event)>, i: nat)
    requires Start(start) && Possible(start, run) && i < |After(start, run).calls|
    ensures AccountOk(After(start, run).calls[i].pc, AccountOf(start, run, i))
  {
    if |run| > 0 {
      var (k, e) := run[|run| - 1];
      var earlier := run[..|run| - 1];
      var before := After(start, earlier);
      hide Start, Next, Enabled, AccountOk, CallOk, KeyOk, Told;
      ReachableInv(start, earlier);
      StepRank(before, k, e);
      AccountKept(start, earlier, i);
      if k == i { AccountStep(before, i, e, AccountOf(start, earlier, i)); }
    }
  }

  /** A call that has its reply succeeds exactly if nothing it was told failed, and then with the
      token it owes. */
  lemma ReplyIsDue(start: State, run: seq<(nat, Event)>, i: nat)
    requires Start(start) && Possible(start, run) && i < |After(start, run).calls|
    requires var pc := After(start, run).calls[i].pc; pc.Leaving? || pc.Returned?
    ensures var pc, a := After(start, run).calls[i].pc, AccountOf(start, run, i);
            && (pc.reply.Failure? <==> a.failed)
            && (pc.reply.Success? ==> Due(a, pc.reply.token))
  {
    AccountKept(start, run, i);
  }

  /** The store changes only by a successful write, to the token the writing call owes and under
      its key. */
  lemma StoredIsDue(start: State, run: seq<(nat, Event)>)
    requires Start(start) && |run| > 0 && Possible(start, run)
    ensures var (i, e) := run[|run| - 1];
            var before, s := After(start, run[..|run| - 1]), After(start, run);
            && i < |before.calls|
            && if e == Save(true) then
                 exists t :: Due(AccountOf(start, run, i), t) && s.store == before.store[before.calls[i].key := t]
               else s.store == before.store
  {
    var (i, e) := run[|run| - 1];
    var earlier := run[..|run| - 1];
    var before := After(start, earlier);
    ReachableInv(start, earlier);
    assert CallOk(before, i);
    AccountKept(start, earlier, i);
    if e == Save(true) { assert Due(AccountOf(start, run, i), before.calls[i].pc.token); }
  }

  /** Calls that share a key exclude each other from reading the store until they return. */
  lemma OneCallPerKey(start: State, run: seq<(nat, Event)>, i: nat, k: nat)
    requires Start(start) && Possible(start, run)
    requires i < |After(start, run).calls| && k < |After(start, run).calls|
    requires var s := After(start, run);
             s.calls[i].key == s.calls[k].key && Inside(s.calls[i].pc) && Inside(s.calls[k].pc)
    ensures i == k
  {
    ReachableInv(start, run);
    assert CallOk(After(start, run), i) && CallOk(After(start, run), k);
  }

  /** No call is left waiting for a lock nobody will release. */
  lemma SomeoneCanGoOn(start: State, run: seq<(nat, Event)>, i: nat) returns (k: nat, e: Event)
    requires Start(start) && Possible(start, run)
    requires i < |After(start, run).calls| && !After(start, run).calls[i].pc.Returned?
    ensures Enabled(After(start, run), k, e)
  {
    ReachableInv(start, run);
    var s := After(start, run);
    var key := s.calls[i].key;
    assert KeyOk(s, key, Lagging(start, run, key)) && CallOk(s, i);
    k := if key in s.locks then s.locks[key] else i;
    assert CallOk(s, k);
    e := match s.calls[k].pc
      case Calling => Step case Leaving(_) => Step case Returned(_) => Step
      case Locked => Read(0, false) case Refreshing(_) => Refresh(0, None)
      case Authorizing(_) => Login(None) case Saving(_, _) => Save(false);
  }

  /** Nothing can go on exactly when every call has returned. */
  lemma StuckMeansReturned(start: State, run: seq<(nat, Event)>)
    requires Start(start) && Possible(start, run)
    ensures var s := After(start, run);
            (forall k, e :: !Enabled(s, k, e)) <==> forall i: nat | i < |s.calls| :: s.calls[i].pc.Returned?
  {
    var s := After(start, run);
    if i: nat :| i < |s.calls| && !s.calls[i].pc.Returned? {
      var k, e := SomeoneCanGoOn(start, run, i);
    }
  }

  /** Steps left at most. */
  function Rank(pc: Pc): nat {
    match pc
    case Calling => 6 case Locked => 5 case Refreshing(_) => 4 case Authorizing(_) => 3
    case Saving(_, _) => 2 case Leaving(_) => 1 case Returned(_) => 0
  }

  function Total(calls: seq<Call>): nat {
    if |calls| == 0 then 0 else Rank(calls[0].pc) + Total(calls[1..])
  }

  lemma {:induction false} TotalUpdate(calls: seq<Call>, i: nat, c: Call)
    requires i < |calls|
    ensures Total(calls[i := c]) == Total(calls) - Rank(calls[i].pc) + Rank(c.pc)
  {
    if i == 0 {
      assert calls[0 := c][1..] == calls[1..];
    } else {
      assert calls[i := c][1..] == calls[1..][i - 1 := c];
      TotalUpdate(calls[1..], i - 1, c);
    }
  }

  lemma {:induction false} StartTotal(calls: seq<Call>)
    requires forall i: nat | i < |calls| :: calls[i].pc == Calling
    ensures Total(calls) == 6 * |calls|
  {
    if |calls| > 0 { StartTotal(calls[1..]); }
  }

  lemma StillAtWork(s: State, i: nat, e: Event)
    requires Enabled(s, i, e)
    ensures i < |s.calls| && !s.calls[i].pc.Returned?
  {
  }

  lemma StepRank(s: State, i: nat, e: Event)
    requires Enabled(s, i, e)
    ensures var c := Next(s, i, e).calls[i];
            Next(s, i, e).calls == s.calls[i := c] && Rank(c.pc) < Rank(s.calls[i].pc)
  {
    hide Presents, Valid, Fresh, Enabled;
    assert !s.calls[i].pc.Returned? by { StillAtWork(s, i, e); }
  }

  /** Every set of calls makes at most six steps a call, so that together with progress every
      call returns. */
  lemma {:induction false} RunsAreBounded(start: State, run: seq<(nat, Event)>)
    requires Start(start) && Possible(start, run)
    ensures |run| + Total(After(start, run).calls) <= 6 * |start.calls|
  {
    if |run| == 0 {
      StartTotal(start.calls);
    } else {
      var (i, e) := run[|run| - 1];
      var before := After(start, run[..|run| - 1]);
      hide Start, Next, Enabled;
      RunsAreBounded(start, run[..|run| - 1]);
      StepRank(before, i, e);
      TotalUpdate(before.calls, i, Next(before, i, e).calls[i]);
    }
  }

  lemma Extend(start: State, run: seq<(nat, Event)>, last: (nat, Event))
    requires Possible(start, run) && Enabled(After(start, run), last.0, last.1)
    ensures Possible(start, run + [last])
    ensures After(start, run + [last]) == Next(After(start, run), last.0, last.1)
  {
    assert (run + [last])[..|run|] == run;
  }

  // ---------- a run with a failed write ----------

  const STORED := Token("access", "first", Some(0))
  const RENEWED := Token("new", "second", None)

  function TwoCalls(locks: map<string, nat>, spent: set<string>, first: Pc, second: Pc): State {
    State(map["key" := STORED], locks,
          if spent == {} then map["first" := "key"] else map["first" := "key"]["second" := "key"],
          spent, [Call("key", first), Call("key", second)])
  }

  lemma FirstReads() returns (run: seq<(nat, Event)>)
    ensures Possible(TwoCalls(map[], {}, Calling, Calling), run) && NoneLost(run) && AllWritten(run)
    ensures After(TwoCalls(map[], {}, Calling, Calling), run)
              == TwoCalls(map["key" := 0], {}, Refreshing(STORED), Calling)
  {
    var s := TwoCalls(map[], {}, Calling, Calling);
    run := ExtendTo(s, [], 0, Step, TwoCalls(map["key" := 0], {}, Locked, Calling));
    run := ExtendTo(s, run, 0, Read(0, true), TwoCalls(map["key" := 0], {}, Refreshing(STORED), Calling));
  }

  lemma FirstExchange() returns (run: seq<(nat, Event)>)
    ensures Possible(TwoCalls(map[], {}, Calling, Calling), run)
    ensures After(TwoCalls(map[], {}, Calling, Calling), run) ==
            TwoCalls(map["key" := 0], {"first"}, Saving(RENEWED, Exchanged), Calling)
    ensures NoneLost(run)
  {
    var s := TwoCalls(map[], {}, Calling, Calling);
    run := FirstReads();
    run := ExtendTo(s, run, 0, Refresh(0, Some(RENEWED)),
      TwoCalls(map["key" := 0], {"first"}, Saving(RENEWED, Exchanged), Calling));
  }

  /** The first call exchanges the stored refresh token and fails to store the answer. */
  lemma FailedWrite() returns (run: seq<(nat, Event)>)
    ensures Possible(TwoCalls(map[], {}, Calling, Calling), run) && NoneLost(run)
    ensures After(TwoCalls(map[], {}, Calling, Calling), run) == TwoCalls(map[], {"first"}, Returned(Failure), Calling)
  {
    var s := TwoCalls(map[], {}, Calling, Calling);
    run := FirstExchange();
    run := ExtendTo(s, run, 0, Save(false), TwoCalls(map["key" := 0], {"first"}, Leaving(Failure), Calling));
    run := ExtendTo(s, run, 0, Step, TwoCalls(map[], {"first"}, Returned(Failure), Calling));
  }

  lemma FirstLoss() returns (run: seq<(nat, Event)>)
    ensures Possible(TwoCalls(map[], {}, Calling, Calling), run) && AllWritten(run)
    ensures After(TwoCalls(map[], {}, Calling, Calling), run) ==
            TwoCalls(map["key" := 0], {"first"}, Authorizing(STORED), Calling)
  {
    var s := TwoCalls(map[], {}, Calling, Calling);
    run := FirstReads();
    run := ExtendTo(s, run, 0, Lost(0, "second"), TwoCalls(map["key" := 0], {"first"}, Authorizing(STORED), Calling));
  }

  /** The answer to the first call's exchange is lost, and so is its login. */
  lemma LostAnswer() returns (run: seq<(nat, Event)>)
    ensures Possible(TwoCalls(map[], {}, Calling, Calling), run) && AllWritten(run)
    ensures After(TwoCalls(map[], {}, Calling, Calling), run) == TwoCalls(map[], {"first"}, Returned(Failure), Calling)
  {
    var s := TwoCalls(map[], {}, Calling, Calling);
    run := FirstLoss();
    run := ExtendTo(s, run, 0, Login(None), TwoCalls(map["key" := 0], {"first"}, Leaving(Failure), Calling));
    run := ExtendTo(s, run, 0, Step, TwoCalls(map[], {"first"}, Returned(Failure), Calling));
  }

  lemma ExtendTo(start: State, run: seq<(nat, Event)>, i: nat, e: Event, s: State) returns (longer: seq<(nat, Event)>)
    requires Possible(start, run) && Enabled(After(start, run), i, e) && Next(After(start, run), i, e) == s
    ensures longer == run + [(i, e)] && Possible(start, longer) && After(start, longer) == s
  {
    longer := run + [(i, e)];
    Extend(start, run, (i, e));
  }

  ghost predicate PresentsAgain(start: State, run: seq<(nat, Event)>, i: nat, e: Event) {
    && Start(start) && Possible(start, run) && Enabled(After(start, run), i, e)
    && Presents(After(start, run).calls[i], e).Some?
    && Presents(After(start, run).calls[i], e).value in After(start, run).spent
  }

  /** Once the first call has failed with the stored token exchanged, the second presents it. */
  lemma SecondCallPresents(run: seq<(nat, Event)>) returns (longer: seq<(nat, Event)>)
    requires var s := TwoCalls(map[], {}, Calling, Calling);
             Possible(s, run) && After(s, run) == TwoCalls(map[], {"first"}, Returned(Failure), Calling)
    ensures longer == run + [(1, Step)] + [(1, Read(0, true))]
    ensures PresentsAgain(TwoCalls(map[], {}, Calling, Calling), longer, 1, Refresh(0, None))
  {
    var s := TwoCalls(map[], {}, Calling, Calling);
    longer := ExtendTo(s, run, 1, Step, TwoCalls(map["key" := 1], {"first"}, Returned(Failure), Locked));
    longer := ExtendTo(s, longer, 1, Read(0, true),
      TwoCalls(map["key" := 1], {"first"}, Returned(Failure), Refreshing(STORED)));
    assert Start(s);
    assert Presents(After(s, longer).calls[1], Refresh(0, None)) == Some("first");
  }

  /** Both assumptions are needed. With a write that fails the second call presents the
      exchanged token again. */
  lemma FailedWritePresentsAgain() returns (run: seq<(nat, Event)>)
    ensures NoneLost(run) && PresentsAgain(TwoCalls(map[], {}, Calling, Calling), run, 1, Refresh(0, None))
  {
    run := FailedWrite();
    run := SecondCallPresents(run);
  }

  /** So it does after an answer that is lost on its way. */
  lemma LostAnswerPresentsAgain() returns (run: seq<(nat, Event)>)
    ensures AllWritten(run) && PresentsAgain(TwoCalls(map[], {}, Calling, Calling), run, 1, Refresh(0, None))
  {
    run := LostAnswer();
    run := SecondCallPresents(run);
  }
}
