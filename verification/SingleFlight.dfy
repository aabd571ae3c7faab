/** `authorizationCodeTokenSource.Token`: concurrent callers of one source share a single
    interactive authorization.

    Each call is followed through the code from lock to return; the sections under the
    mutex are taken one assignment at a time, because waiters read a result without it. */
module SingleFlight {
  import opened Options

  /** The token and error a call returns or a result is filled with. */
  datatype Pair = Pair(token: Option<string>, err: Option<string>)

  datatype Via = ByRefresh | ByWaiting(result: nat) | ByLeading(result: nat) | ByCancellation

  datatype Pc =
    | Calling                          // about to lock the mutex
    | Locked                           // about to try the refresh source
    | Checked                          // about to look for an authorization in progress
    | Waiting(result: nat)             // blocked on the result or the context
    | Leading(result: nat)             // running authorize, without the mutex
    | Back(result: nat, got: Pair)     // authorize returned, about to lock the mutex
    | AtRefresh(result: nat, got: Pair)
    | AtToken(result: nat, got: Pair)
    | AtError(result: nat, got: Pair)
    | AtClear(result: nat, got: Pair)
    | AtClose(result: nat, got: Pair)
    | Leaving(reply: Pair, via: Via)   // about to unlock and return
    | Returned(reply: Pair, via: Via)

  /** An `authorizationResult`, with the number of times it was written and closed. */
  datatype Cell = Cell(token: Option<string>, err: Option<string>, tokenWrites: nat, errWrites: nat, closes: nat)

  /** `leaders[r]` is the call that created result `r`. */
  datatype State = State(
    mu: Option<nat>, refresh: bool, authorizing: Option<nat>,
    cells: seq<Cell>, leaders: seq<nat>, calls: seq<Pc>)

  /** What the outside answers at a step: the refresh source, the authorization, the context. */
  datatype Event =
    | Step
    | Refreshed(token: string) | RefreshFailed
    | Authorized(token: string) | Denied(err: string)
    | Cancelled(err: string)

  function Initial(n: nat): State {
    State(None, false, None, [], [], seq(n, i => Calling))
  }

  predicate HoldsMutex(pc: Pc) {
    pc.Locked? || pc.Checked? || pc.AtRefresh? || pc.AtToken? || pc.AtError? || pc.AtClear? || pc.AtClose?
      || pc.Leaving?
  }

  predicate Enabled(s: State, i: nat, e: Event) {
    && i < |s.calls|
    && match s.calls[i]
       case Calling => s.mu.None? && e == Step
       case Locked => if s.refresh then e.Refreshed? || e.RefreshFailed? else e == Step
       case Waiting(r) => e.Cancelled? || (e == Step && r < |s.cells| && s.cells[r].closes > 0)
       case Leading(_) => e.Authorized? || e.Denied?
       case Back(_, _) => s.mu.None? && e == Step
       case Returned(_, _) => false
       case _ => e == Step
  }

  function Go(s: State, i: nat, pc: Pc): State
    requires i < |s.calls|
  {
    s.(calls := s.calls[i := pc])
  }

  function Next(s: State, i: nat, e: Event): State
    requires i < |s.calls|
  {
    match s.calls[i]
    case Calling => Go(s.(mu := Some(i)), i, Locked)
    case Locked =>
      if s.refresh && e.Refreshed? then Go(s, i, Leaving(Pair(Some(e.token), None), ByRefresh))
      else Go(s.(refresh := false), i, Checked)
    case Checked =>
      (match s.authorizing
       case Some(r) => Go(s.(mu := None), i, Waiting(r))
       case None =>
         var r := |s.cells|;
         Go(s.(mu := None, authorizing := Some(r), cells := s.cells + [Cell(None, None, 0, 0, 0)],
             leaders := s.leaders + [i]),
            i, Leading(r)))
    case Waiting(r) =>
      if e.Cancelled? || r >= |s.cells| then
        Go(s, i, Returned(Pair(None, Some(if e.Cancelled? then e.err else "")), ByCancellation))
      else Go(s, i, Returned(Pair(s.cells[r].token, s.cells[r].err), ByWaiting(r)))
    case Leading(r) =>
      Go(s, i, Back(r, if e.Authorized? then Pair(Some(e.token), None)
                       else Pair(None, Some(if e.Denied? then e.err else ""))))
    case Back(r, got) => Go(s.(mu := Some(i)), i, AtRefresh(r, got))
    case AtRefresh(r, got) => Go(if got.err.None? then s.(refresh := true) else s, i, AtToken(r, got))
    case AtToken(r, got) =>
      if r >= |s.cells| then s
      else Go(s.(cells := s.cells[r := s.cells[r].(token := got.token, tokenWrites := s.cells[r].tokenWrites + 1)]),
             i, AtError(r, got))
    case AtError(r, got) =>
      if r >= |s.cells| then s
      else Go(s.(cells := s.cells[r := s.cells[r].(err := got.err, errWrites := s.cells[r].errWrites + 1)]), i,
             AtClear(r, got))
    case AtClear(r, got) => Go(s.(authorizing := None), i, AtClose(r, got))
    case AtClose(r, got) =>
      if r >= |s.cells| then s
      else Go(s.(cells := s.cells[r := s.cells[r].(closes := s.cells[r].closes + 1)]), i, Leaving(got, ByLeading(r)))
    case Leaving(reply, via) => Go(s.(mu := None), i, Returned(reply, via))
    case Returned(_, _) => s
  }

  // ---------- the invariant ----------

  /** How far the leader of result `r` has got with it: 0 nothing written, 1 the token, 2 the
      error too, 3 closed. */
  function Progress(pc: Pc, r: nat): nat {
    match pc
    case Leading(q) => if q == r then 0 else 3
    case Back(q, _) => if q == r then 0 else 3
    case AtRefresh(q, _) => if q == r then 0 else 3
    case AtToken(q, _) => if q == r then 0 else 3
    case AtError(q, _) => if q == r then 1 else 3
    case AtClear(q, _) => if q == r then 2 else 3
    case AtClose(q, _) => if q == r then 2 else 3
    case _ => 3
  }

  /** The call leads the authorization that is registered as in progress. */
  predicate Registered(pc: Pc) {
    pc.Leading? || pc.Back? || pc.AtRefresh? || pc.AtToken? || pc.AtError? || pc.AtClear?
  }

  predicate Got(pc: Pc) { pc.Back? || pc.AtRefresh? || pc.AtToken? || pc.AtError? || pc.AtClear? || pc.AtClose? }

  ghost predicate CellOk(s: State, r: nat)
    requires r < |s.cells| && r < |s.leaders| && s.leaders[r] < |s.calls|
  {
    var c, pc := s.cells[r], s.calls[s.leaders[r]];
    var p := Progress(pc, r);
    && c.tokenWrites == (if p == 0 then 0 else 1)
    && c.errWrites == (if p <= 1 then 0 else 1)
    && c.closes == (if p == 3 then 1 else 0)
    && (p == 1 || p == 2 ==> Got(pc) && c.token == pc.got.token && (p == 2 ==> c.err == pc.got.err))
    && (p == 3 ==> (pc.Leaving? || pc.Returned?) && pc.via == ByLeading(r) && pc.reply == Pair(c.token, c.err))
  }

  ghost predicate CallOk(s: State, i: nat)
    requires i < |s.calls| && |s.leaders| == |s.cells|
  {
    var pc := s.calls[i];
    && (s.mu == Some(i) <==> HoldsMutex(pc))
    && (pc.Checked? ==> !s.refresh)
    && (Registered(pc) ==> pc.result < |s.cells| && s.leaders[pc.result] == i && s.authorizing == Some(pc.result))
    && (pc.AtClose? ==> pc.result < |s.cells| && s.leaders[pc.result] == i)
    && (pc.Waiting? ==> pc.result < |s.cells|)
    && ((pc.Leaving? || pc.Returned?) && pc.via.ByLeading?
       ==> pc.via.result < |s.cells| && s.leaders[pc.via.result] == i)
    && (pc.Leaving? ==> !pc.via.ByWaiting?)
    && (pc.Returned? && pc.via.ByWaiting? ==>
          && pc.via.result < |s.cells| && s.cells[pc.via.result].closes == 1
          && pc.reply == Pair(s.cells[pc.via.result].token, s.cells[pc.via.result].err))
  }

  /** The refresh source may coexist with a registered authorization only inside the section
      that publishes a result. */
  predicate Publishing(s: State) {
    && s.mu.Some? && s.mu.value < |s.calls|
    && var pc := s.calls[s.mu.value]; pc.AtToken? || pc.AtError? || pc.AtClear?
  }

  /** A registered authorization has a live leader, and excludes the refresh source. */
  ghost predicate RegistrationOk(s: State) {
    && (s.authorizing.Some? ==>
          && s.authorizing.value < |s.cells| && s.authorizing.value < |s.leaders|
          && s.leaders[s.authorizing.value] < |s.calls|
          && Registered(s.calls[s.leaders[s.authorizing.value]])
          && s.calls[s.leaders[s.authorizing.value]].result == s.authorizing.value)
    && (s.authorizing.Some? && s.refresh ==> Publishing(s))
  }

  ghost predicate Inv(s: State) {
    && |s.leaders| == |s.cells|
    && (forall r | 0 <= r < |s.cells| :: s.leaders[r] < |s.calls|)
    && (s.mu.Some? ==> s.mu.value < |s.calls|)
    && RegistrationOk(s)
    && (forall r | 0 <= r < |s.cells| :: CellOk(s, r))
    && (forall i | 0 <= i < |s.calls| :: CallOk(s, i))
  }

  /** Only its leader touches a result. */
  lemma CellUntouched(s: State, i: nat, e: Event, r: nat)
    requires Enabled(s, i, e) && |s.leaders| == |s.cells| && CallOk(s, i)
    requires r < |s.cells| && s.leaders[r] < |s.calls| && s.leaders[r] != i
    ensures var z := Next(s, i, e);
            && |z.leaders| == |z.cells| && r < |z.cells| && z.cells[r] == s.cells[r] && z.leaders[r] == s.leaders[r]
            && |z.calls| == |s.calls| && z.calls[s.leaders[r]] == s.calls[s.leaders[r]]
  {
    match s.calls[i] {
      case Calling => case Locked => case Checked => case Waiting(_) => case Leading(_) => case Back(_, _) =>
      case AtRefresh(_, _) => case AtToken(_, _) => case AtError(_, _) => case AtClear(_, _) => case AtClose(_, _) =>
      case Leaving(_, _) => case Returned(_, _) =>
    }
  }

  lemma OwnCellStep(s: State, i: nat, e: Event, r: nat)
    requires Enabled(s, i, e) && |s.leaders| == |s.cells| && CallOk(s, i)
    requires r < |s.cells| && s.leaders[r] == i && CellOk(s, r)
    ensures var z := Next(s, i, e);
            |z.leaders| == |z.cells| && r < |z.cells| && z.leaders[r] < |z.calls| == |s.calls| && CellOk(z, r)
  {
    match s.calls[i] {
      case Calling => case Locked => case Checked => case Waiting(_) => case Leading(_) => case Back(_, _) =>
      case AtRefresh(_, _) => case AtToken(_, _) => case AtError(_, _) => case AtClear(_, _) => case AtClose(_, _) =>
      case Leaving(_, _) => case Returned(_, _) =>
    }
  }

  /** Every step keeps the invariant of a result: only its leader writes it, in order, once. */
  lemma CellStep(s: State, i: nat, e: Event, r: nat)
    requires Enabled(s, i, e) && r < |Next(s, i, e).cells|
    requires |s.leaders| == |s.cells| && CallOk(s, i)
    requires r < |s.cells| ==> s.leaders[r] < |s.calls| && CellOk(s, r)
    ensures |Next(s, i, e).leaders| == |Next(s, i, e).cells| && Next(s, i, e).leaders[r] < |s.calls|
    ensures CellOk(Next(s, i, e), r)
  {
    if r < |s.cells| {
      if s.leaders[r] == i { OwnCellStep(s, i, e, r); } else { CellUntouched(s, i, e, r); }
    } else {
      NewCell(s, i, e);
    }
  }

  lemma NewCell(s: State, i: nat, e: Event)
    requires Enabled(s, i, e) && |s.leaders| == |s.cells| && CallOk(s, i) && |Next(s, i, e).cells| > |s.cells|
    ensures var z := Next(s, i, e);
            && |z.leaders| == |z.cells| == |s.cells| + 1 && z.leaders[|s.cells|] < |z.calls| == |s.calls|
            && CellOk(z, |s.cells|)
  {
  }

  /** A step keeps the invariant of the call that takes it. */
  lemma OwnStep(s: State, i: nat, e: Event)
    requires Enabled(s, i, e) && |s.leaders| == |s.cells| && CallOk(s, i)
    requires s.calls[i].Waiting? ==>
      var r := s.calls[i].result; s.leaders[r] < |s.calls| && CellOk(s, r)
    requires s.authorizing.Some? ==> s.authorizing.value < |s.cells|
    ensures |Next(s, i, e).leaders| == |Next(s, i, e).cells| && CallOk(Next(s, i, e), i)
  {
    match s.calls[i] {
      case Calling => case Locked => case Checked => case Waiting(_) => case Leading(_) => case Back(_, _) =>
      case AtRefresh(_, _) => case AtToken(_, _) => case AtError(_, _) => case AtClear(_, _) => case AtClose(_, _) =>
      case Leaving(_, _) => case Returned(_, _) =>
    }
  }

  /** A step keeps the invariant of every other call. */
  lemma OtherStep(s: State, i: nat, e: Event, k: nat)
    requires Enabled(s, i, e) && |s.leaders| == |s.cells| && CallOk(s, i)
    requires k < |s.calls| && k != i && CallOk(s, k)
    requires s.calls[k].Returned? && s.calls[k].via.ByWaiting? ==>
      var r := s.calls[k].via.result; s.leaders[r] < |s.calls| && CellOk(s, r)
    ensures |Next(s, i, e).leaders| == |Next(s, i, e).cells| && CallOk(Next(s, i, e), k)
  {
    match s.calls[i] {
      case Calling => case Locked => case Checked => case Waiting(_) => case Leading(_) => case Back(_, _) =>
      case AtRefresh(_, _) => case AtToken(_, _) => case AtError(_, _) => case AtClear(_, _) => case AtClose(_, _) =>
      case Leaving(_, _) => case Returned(_, _) =>
    }
  }

  lemma CallStep(s: State, i: nat, e: Event, k: nat)
    requires Inv(s) && Enabled(s, i, e) && k < |s.calls|
    ensures |Next(s, i, e).leaders| == |Next(s, i, e).cells| && CallOk(Next(s, i, e), k)
  {
    assert CallOk(s, i) && CallOk(s, k) && RegistrationOk(s);
    if k == i {
      OwnStep(s, i, e);
    } else {
      OtherStep(s, i, e, k);
    }
  }

  lemma RegistrationStep(s: State, i: nat, e: Event)
    requires Enabled(s, i, e) && |s.leaders| == |s.cells| && CallOk(s, i) && RegistrationOk(s)
    requires s.mu.Some? && s.mu.value < |s.calls| ==> CallOk(s, s.mu.value)
    ensures RegistrationOk(Next(s, i, e))
  {
    match s.calls[i] {
      case Calling => case Locked => case Checked => case Waiting(_) => case Leading(_) => case Back(_, _) =>
      case AtRefresh(_, _) => case AtToken(_, _) => case AtError(_, _) => case AtClear(_, _) => case AtClose(_, _) =>
      case Leaving(_, _) => case Returned(_, _) =>
    }
  }

  lemma StepInv(s: State, i: nat, e: Event)
    requires Inv(s) && Enabled(s, i, e)
    ensures Inv(Next(s, i, e))
  {
    var z := Next(s, i, e);
    assert CallOk(s, i) && RegistrationOk(s);
    assert s.mu.Some? ==> CallOk(s, s.mu.value);
    forall r: nat | r < |z.cells|
      ensures |z.leaders| == |z.cells| && z.leaders[r] < |s.calls| && CellOk(z, r)
    {
      assert r < |s.cells| ==> CellOk(s, r);
      hide CellOk, CallOk;
      CellStep(s, i, e, r);
    }
    forall k: nat | k < |s.calls|
      ensures |z.leaders| == |z.cells| && CallOk(z, k)
    {
      CallStep(s, i, e, k);
    }
    RegistrationStep(s, i, e);
    hide CellOk, CallOk, RegistrationOk;
  }

  /** A step moves the call that takes it, and brings it nearer to its return. */
  lemma OnlyOwnCall(s: State, i: nat, e: Event)
    requires Enabled(s, i, e)
    ensures Next(s, i, e).calls == s.calls[i := Next(s, i, e).calls[i]]
  {
    match s.calls[i] {
      case Calling => case Locked => case Checked => case Waiting(_) => case Leading(_) => case Back(_, _) =>
      case AtRefresh(_, _) => case AtToken(_, _) => case AtError(_, _) => case AtClear(_, _) => case AtClose(_, _) =>
      case Leaving(_, _) => case Returned(_, _) =>
    }
  }

  /** How many steps a call can still take. */
  function Rank(pc: Pc): nat {
    match pc
    case Calling => 11 case Locked => 10 case Checked => 9 case Leading(_) => 8 case Back(_, _) => 7
    case AtRefresh(_, _) => 6 case AtToken(_, _) => 5 case AtError(_, _) => 4 case AtClear(_, _) => 3
    case AtClose(_, _) => 2 case Leaving(_, _) => 1 case Waiting(_) => 1 case Returned(_, _) => 0
  }

  lemma StepRank(s: State, i: nat, e: Event)
    requires Enabled(s, i, e) && |s.leaders| == |s.cells| && CallOk(s, i)
    ensures Rank(Next(s, i, e).calls[i]) < Rank(s.calls[i])
  {
    match s.calls[i] {
      case Calling => case Locked => case Checked => case Waiting(_) => case Leading(_) => case Back(_, _) =>
      case AtRefresh(_, _) => case AtToken(_, _) => case AtError(_, _) => case AtClear(_, _) => case AtClose(_, _) =>
      case Leaving(_, _) => case Returned(_, _) =>
    }
  }

  // ---------- whole runs ----------

  /** A run of `n` calls: which call takes a step, and what the outside answers it. */
  ghost predicate Possible(n: nat, run: seq<(nat, Event)>)
    ensures Possible(n, run) ==> |After(n, run).calls| == n
  {
    |run| > 0 ==>
      var (i, e) := run[|run| - 1];
      Possible(n, run[..|run| - 1]) && Enabled(After(n, run[..|run| - 1]), i, e)
  }

  ghost function After(n: nat, run: seq<(nat, Event)>): State {
    if |run| == 0 then Initial(n) else
    var (i, e) := run[|run| - 1];
    var before := After(n, run[..|run| - 1]);
    if i < |before.calls| then Next(before, i, e) else before
  }

  lemma {:induction false} ReachableInv(n: nat, run: seq<(nat, Event)>)
    requires Possible(n, run)
    ensures Inv(After(n, run))
  {
    if |run| > 0 {
      ReachableInv(n, run[..|run| - 1]);
      StepInv(After(n, run[..|run| - 1]), run[|run| - 1].0, run[|run| - 1].1);
    }
  }

  /** At most one authorization is in progress; while one is registered and nobody is inside
      the critical section there is no refresh source. */
  lemma OneAuthorization(n: nat, run: seq<(nat, Event)>, i: nat, k: nat)
    requires Possible(n, run) && i < n && k < n
    ensures var s := After(n, run);
            && (s.calls[i].Leading? && s.calls[k].Leading? ==> i == k)
            && (s.calls[i].Leading? ==> s.authorizing == Some(s.calls[i].result))
            && (s.authorizing.Some? && s.mu.None? ==> !s.refresh)
  {
    ReachableInv(n, run);
    var s := After(n, run);
    assert CallOk(s, i) && CallOk(s, k);
  }

  // ---------- when there is a refresh source ----------

  /** Some authorization of the run has succeeded, and no refresh has failed since. */
  ghost predicate Succeeded(run: seq<(nat, Event)>) {
    exists k: nat :: k < |run| && run[k].1.Authorized? && forall j | k < j < |run| :: !run[j].1.RefreshFailed?
  }

  lemma SucceededStep(run: seq<(nat, Event)>)
    requires |run| > 0
    ensures var e := run[|run| - 1].1;
            Succeeded(run) <==> e.Authorized? || (!e.RefreshFailed? && Succeeded(run[..|run| - 1]))
  {
    var earlier, e := run[..|run| - 1], run[|run| - 1].1;
    if e.Authorized? { assert run[|run| - 1].1.Authorized?; }
    if !e.RefreshFailed? && Succeeded(earlier) {
      var k: nat :| k < |earlier| && earlier[k].1.Authorized? &&
                    forall j | k < j < |earlier| :: !earlier[j].1.RefreshFailed?;
      assert run[k].1.Authorized? && forall j | k < j < |run| :: !run[j].1.RefreshFailed?;
    }
    if Succeeded(run) && !e.Authorized? {
      var k: nat :| k < |run| && run[k].1.Authorized? && forall j | k < j < |run| :: !run[j].1.RefreshFailed?;
      assert earlier[k].1.Authorized? && forall j | k < j < |earlier| :: !earlier[j].1.RefreshFailed?;
    }
  }

  /** An authorization has its answer, and its leader has yet to act on it. */
  predicate Answered(pc: Pc) { pc.Back? || pc.AtRefresh? }

  /** There is a source exactly if one is owed, except that the leader of an authorization that
      has been answered has yet to keep the one it got. */
  ghost predicate SourceOk(s: State, owed: bool) {
    if exists i | 0 <= i < |s.calls| :: Answered(s.calls[i]) then
      !s.refresh && forall i | 0 <= i < |s.calls| && Answered(s.calls[i]) :: s.calls[i].got.err.None? <==> owed
    else s.refresh <==> owed
  }

  /** The leader is the only call with an answer, and while it works there is no source. */
  lemma Leader(s: State, i: nat)
    requires Inv(s) && i < |s.calls| && (Answered(s.calls[i]) || s.calls[i].Leading?)
    ensures s.authorizing.Some?
    ensures forall k | 0 <= k < |s.calls| && (Answered(s.calls[k]) || s.calls[k].Leading?) :: k == i
    ensures !s.refresh
  {
    assert CallOk(s, i) && RegistrationOk(s);
    forall k | 0 <= k < |s.calls| && (Answered(s.calls[k]) || s.calls[k].Leading?)
      ensures k == i
    {
      assert CallOk(s, k);
    }
    if Publishing(s) {
      assert CallOk(s, s.mu.value);
    }
  }

  lemma OthersAnswered(s: State, z: State, i: nat)
    requires i < |s.calls| && |z.calls| == |s.calls| && z.calls == s.calls[i := z.calls[i]]
    requires !Answered(s.calls[i]) && !Answered(z.calls[i])
    ensures (exists k | 0 <= k < |s.calls| :: Answered(s.calls[k])) <==>
            (exists k | 0 <= k < |z.calls| :: Answered(z.calls[k]))
    ensures forall k | 0 <= k < |s.calls| && Answered(z.calls[k]) :: z.calls[k] == s.calls[k]
  {
    if k :| 0 <= k < |s.calls| && Answered(s.calls[k]) { assert Answered(z.calls[k]); }
    if k :| 0 <= k < |z.calls| && Answered(z.calls[k]) { assert Answered(s.calls[k]); }
  }

  lemma SourceStep(s: State, i: nat, e: Event, owed: bool)
    requires Inv(s) && Enabled(s, i, e) && SourceOk(s, owed)
    ensures SourceOk(Next(s, i, e), e.Authorized? || (!e.RefreshFailed? && owed))
  {
    var z := Next(s, i, e);
    OnlyOwnCall(s, i, e);
    forall k: nat | k < |s.calls| && (Answered(s.calls[k]) || s.calls[k].Leading?)
      ensures !s.refresh && forall j | 0 <= j < |s.calls| && (Answered(s.calls[j]) || s.calls[j].Leading?) :: j == k
    {
      Leader(s, k);
    }
    hide Inv;
    if !Answered(s.calls[i]) && !Answered(z.calls[i]) { OthersAnswered(s, z, i); }
    match s.calls[i] {
      case Calling => case Locked => case Checked => case Waiting(_) =>
      case Leading(_) => assert Answered(z.calls[i]);
      case Back(_, _) => assert Answered(s.calls[i]) && Answered(z.calls[i]);
      case AtRefresh(_, _) => assert Answered(s.calls[i]);
      case AtToken(_, _) => case AtError(_, _) => case AtClear(_, _) => case AtClose(_, _) =>
      case Leaving(_, _) => case Returned(_, _) =>
    }
  }

  lemma {:induction false} SourceKept(n: nat, run: seq<(nat, Event)>)
    requires Possible(n, run)
    ensures SourceOk(After(n, run), Succeeded(run))
  {
    if |run| > 0 {
      var (i, e) := run[|run| - 1];
      hide SourceOk, Succeeded, Next, Enabled, Inv;
      SourceKept(n, run[..|run| - 1]);
      ReachableInv(n, run[..|run| - 1]);
      SucceededStep(run);
      SourceStep(After(n, run[..|run| - 1]), i, e, Succeeded(run[..|run| - 1]));
    }
  }

  /** While no authorization is in progress there is a refresh source exactly if some
      authorization has succeeded and no refresh has failed since. */
  lemma RefreshSource(n: nat, run: seq<(nat, Event)>)
    requires Possible(n, run)
    ensures After(n, run).authorizing.None? ==> (After(n, run).refresh <==> Succeeded(run))
  {
    SourceKept(n, run);
    ReachableInv(n, run);
    forall i: nat | i < |After(n, run).calls|
      ensures Answered(After(n, run).calls[i]) ==> After(n, run).authorizing.Some?
    {
      assert CallOk(After(n, run), i);
    }
  }

  /** A call that has the mutex asks the refresh source exactly if there is one, and goes past it
      otherwise. */
  lemma AsksTheSource(n: nat, run: seq<(nat, Event)>, i: nat, token: string)
    requires Possible(n, run) && i < n && After(n, run).calls[i].Locked?
    ensures var s := After(n, run);
            var source := s.authorizing.None? && Succeeded(run);
            && (Enabled(s, i, Refreshed(token)) <==> source) && (Enabled(s, i, RefreshFailed) <==> source)
            && (Enabled(s, i, Step) <==> !source)
  {
    RefreshSource(n, run);
    ReachableInv(n, run);
    assert CallOk(After(n, run), i) && RegistrationOk(After(n, run));
  }

  /** What a refresh answers is what the call returns, without an authorization of its own. */
  lemma RefreshedReturns(n: nat, run: seq<(nat, Event)>, k: nat, i: nat, token: string)
    requires Possible(n, run) && k < |run| && run[k] == (i, Refreshed(token))
    ensures var s := After(n, run);
            && i < n && (s.calls[i].Leaving? || s.calls[i].Returned?)
            && s.calls[i].reply == Pair(Some(token), None) && s.calls[i].via == ByRefresh
            && i !in s.leaders
  {
    RefreshedStays(n, run, k, i, token);
    ReachableInv(n, run);
    forall r | 0 <= r < |After(n, run).leaders|
      ensures After(n, run).leaders[r] != i
    {
      assert CellOk(After(n, run), r);
    }
  }

  lemma {:induction false} RefreshedStays(n: nat, run: seq<(nat, Event)>, k: nat, i: nat, token: string)
    requires Possible(n, run) && k < |run| && run[k] == (i, Refreshed(token))
    ensures i < n && After(n, run).calls[i] in
              {Leaving(Pair(Some(token), None), ByRefresh), Returned(Pair(Some(token), None), ByRefresh)}
  {
    var (j, e) := run[|run| - 1];
    var before := After(n, run[..|run| - 1]);
    OnlyOwnCall(before, j, e);
    if k < |run| - 1 { RefreshedStays(n, run[..|run| - 1], k, i, token); }
  }

  /** A call starts an authorization only if none is in progress and no refresh source is
      owed. */
  lemma AuthorizesOnlyIfNeeded(n: nat, run: seq<(nat, Event)>)
    requires |run| > 0 && Possible(n, run)
    ensures var before, s := After(n, run[..|run| - 1]), After(n, run);
            && (s.leaders == before.leaders || s.leaders == before.leaders + [run[|run| - 1].0])
            && (s.leaders != before.leaders ==> before.authorizing.None? && !Succeeded(run[..|run| - 1]))
  {
    var (i, e) := run[|run| - 1];
    RefreshSource(n, run[..|run| - 1]);
    ReachableInv(n, run[..|run| - 1]);
    assert CallOk(After(n, run[..|run| - 1]), i);
    hide Succeeded;
  }

  /** A result is written and closed at most once, is complete before it is closed, and while
      it is open its leader is still at work on it. */
  lemma ResultFilledOnce(n: nat, run: seq<(nat, Event)>, r: nat)
    requires Possible(n, run) && r < |After(n, run).cells|
    ensures var s := After(n, run); var c := s.cells[r];
            && c.tokenWrites <= 1 && c.errWrites <= 1 && c.closes <= 1
            && (c.closes == 1 ==> c.tokenWrites == 1 && c.errWrites == 1)
            && r < |s.leaders| && s.leaders[r] < n
            && var leader := s.calls[s.leaders[r]];
               (c.closes == 0 <==> ((Registered(leader) || leader.AtClose?) && leader.result == r))
  {
    ReachableInv(n, run);
    assert CellOk(After(n, run), r);
  }

  /** The token or error that an event delivers. */
  function Delivered(e: Event): Option<Pair> {
    match e
    case Refreshed(token) => Some(Pair(Some(token), None))
    case Authorized(token) => Some(Pair(Some(token), None))
    case Denied(err) => Some(Pair(None, Some(err)))
    case Cancelled(err) => Some(Pair(None, Some(err)))
    case _ => None
  }

  /** What the outside delivered last to call `i`: its refreshed token, the answer of the
      authorization it ran, or its cancellation. */
  ghost function Answer(run: seq<(nat, Event)>, i: nat): Option<Pair> {
    if |run| == 0 then None else
    var (k, e) := run[|run| - 1];
    if k == i && Delivered(e).Some? then Delivered(e) else Answer(run[..|run| - 1], i)
  }

  ghost predicate AnswerOk(pc: Pc, answer: Option<Pair>) {
    && (Got(pc) ==> answer == Some(pc.got))
    && ((pc.Leaving? || pc.Returned?) && !pc.via.ByWaiting? ==> answer == Some(pc.reply))
  }

  lemma AnswerStep(s: State, i: nat, e: Event, answer: Option<Pair>)
    requires Enabled(s, i, e) && AnswerOk(s.calls[i], answer)
    ensures AnswerOk(Next(s, i, e).calls[i], if Delivered(e).Some? then Delivered(e) else answer)
  {
    match s.calls[i] {
      case Calling => case Locked => case Checked => case Waiting(_) => case Leading(_) => case Back(_, _) =>
      case AtRefresh(_, _) => case AtToken(_, _) => case AtError(_, _) => case AtClear(_, _) => case AtClose(_, _) =>
      case Leaving(_, _) => case Returned(_, _) =>
    }
  }

  lemma {:induction false} AnswerKept(n: nat, run: seq<(nat, Event)>, i: nat)
    requires Possible(n, run) && i < n
    ensures AnswerOk(After(n, run).calls[i], Answer(run, i))
  {
    if |run| > 0 {
      var (k, e) := run[|run| - 1];
      var before := After(n, run[..|run| - 1]);
      AnswerKept(n, run[..|run| - 1], i);
      if k == i {
        AnswerStep(before, i, e, Answer(run[..|run| - 1], i));
      } else {
        OnlyOwnCall(before, k, e);
      }
      hide AnswerOk, Next, Enabled;
    }
  }

  /** A call that waited returns exactly the token and error of the authorization it waited
      for, however many authorizations were started since. */
  lemma WaiterGetsItsLeadersAnswer(n: nat, run: seq<(nat, Event)>, i: nat)
    requires Possible(n, run) && i < n
    requires var pc := After(n, run).calls[i]; pc.Returned? && pc.via.ByWaiting?
    ensures var s := After(n, run);
            && s.calls[i].via.result < |s.leaders|
            && Answer(run, s.leaders[s.calls[i].via.result]) == Some(s.calls[i].reply)
  {
    ReachableInv(n, run);
    var s := After(n, run);
    var r := s.calls[i].via.result;
    assert CallOk(s, i) && CellOk(s, r);
    AnswerKept(n, run, s.leaders[r]);
  }

  /** Every other call returns what was delivered to itself: a refreshed token, the answer of
      the authorization it ran, or its cancellation; and never both a token and an error. */
  lemma ReplyIsItsOwnAnswer(n: nat, run: seq<(nat, Event)>, i: nat)
    requires Possible(n, run) && i < n
    requires var pc := After(n, run).calls[i]; pc.Returned? && !pc.via.ByWaiting?
    ensures var pc := After(n, run).calls[i];
            Answer(run, i) == Some(pc.reply) && (pc.reply.token.Some? <==> pc.reply.err.None?)
  {
    AnswerKept(n, run, i);
    AnswerIsEither(run, i);
  }

  lemma {:induction false} AnswerIsEither(run: seq<(nat, Event)>, i: nat)
    ensures Answer(run, i).Some? ==> (Answer(run, i).value.token.Some? <==> Answer(run, i).value.err.None?)
  {
    if |run| > 0 {
      AnswerIsEither(run[..|run| - 1], i);
    }
  }

  /** No deadlock: while a call has not returned, somebody can go on without a cancellation. */
  lemma SomeoneCanGoOn(n: nat, run: seq<(nat, Event)>, i: nat) returns (k: nat, e: Event)
    requires Possible(n, run) && i < n && !After(n, run).calls[i].Returned?
    ensures !e.Cancelled? && Enabled(After(n, run), k, e)
  {
    ReachableInv(n, run);
    var s := After(n, run);
    assert CallOk(s, i);
    k := if s.mu.Some? then s.mu.value else i;
    assert CallOk(s, k);
    if s.mu.None? && s.calls[i].Waiting? && s.cells[s.calls[i].result].closes == 0 {
      assert CellOk(s, s.calls[i].result);
      k := s.leaders[s.calls[i].result];
      assert CallOk(s, k);
    }
    e := if s.calls[k].Leading? then Denied("") else if s.calls[k].Locked? && s.refresh then RefreshFailed else Step;
  }

  function Total(calls: seq<Pc>): nat {
    if |calls| == 0 then 0 else Rank(calls[0]) + Total(calls[1..])
  }

  lemma {:induction false} TotalUpdate(calls: seq<Pc>, i: nat, pc: Pc)
    requires i < |calls|
    ensures Total(calls[i := pc]) == Total(calls) - Rank(calls[i]) + Rank(pc)
  {
    if i == 0 {
      assert calls[0 := pc][1..] == calls[1..];
    } else {
      assert calls[i := pc][1..] == calls[1..][i - 1 := pc];
      TotalUpdate(calls[1..], i - 1, pc);
    }
  }

  lemma {:induction false} InitialTotal(n: nat)
    ensures Total(seq(n, i => Calling)) == 11 * n
  {
    if n > 0 {
      assert seq(n, i => Calling)[1..] == seq(n - 1, i => Calling);
      InitialTotal(n - 1);
    }
  }

  /** Every call of `n` returns after at most `11 * n` steps in all, whatever the schedule. */
  lemma {:induction false} RunsAreBounded(n: nat, run: seq<(nat, Event)>)
    requires Possible(n, run)
    ensures |run| + Total(After(n, run).calls) <= 11 * n
  {
    if |run| == 0 {
      InitialTotal(n);
    } else {
      var (i, e) := run[|run| - 1];
      var before := After(n, run[..|run| - 1]);
      RunsAreBounded(n, run[..|run| - 1]);
      ReachableInv(n, run[..|run| - 1]);
      assert CallOk(before, i);
      StepRank(before, i, e);
      OnlyOwnCall(before, i, e);
      hide Next, Enabled, Rank, Inv;
      TotalUpdate(before.calls, i, Next(before, i, e).calls[i]);
    }
  }
}
