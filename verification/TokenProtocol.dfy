/** The service token store under concurrency: threads interleave at every lock
    acquisition, atomic load, compare-exchange and `fetch_max`. */
module TokenProtocol {
  import opened Wrappers
  import opened ServiceTokens

  type Tid = nat

  /** A call with the values it draws at its start (random strings, the wall clock). */
  datatype Call =
    | DoIssue(token: Token, tokenId: string, request: Request, now: int)
    | DoRevoke(token: Token)
    | DoValidate(token: Token, mode: Mode, now: int)

  /** Where a thread stands. `...Wait` waits for a lock, `...Hold` holds it with its
      work ahead, `...Exit` holds it with its work done. */
  datatype Pc =
    | Resting
    | CheckDue(call: Call)
    | Swap(call: Call, elapsed: nat, due: nat)
    | SweepWait(call: Call)
    | SweepHold(call: Call)
    | SweepExit(call: Call)
    | ReadWait(call: Call)
    | ReadHold(call: Call)
    | TouchHold(call: Call, seen: Entry)
    | ReadMiss(call: Call)
    | ReadExit(call: Call, reply: Reply)
    | WriteWait(call: Call)
    | WriteHold(call: Call)
    | WriteExit(call: Call, reply: Reply)
    | Replied(call: Call, reply: Reply)
  {
    predicate Reading() { ReadHold? || TouchHold? || ReadMiss? || ReadExit? }

    predicate Writing() { SweepHold? || SweepExit? || WriteHold? || WriteExit? }

    /** The answer of the call is settled. */
    predicate Decided() { ReadExit? || WriteExit? || Replied? }

    /** Only validations pass here. */
    predicate Validating() {
      CheckDue? || Swap? || SweepWait? || SweepHold? || SweepExit? || ReadWait? || Reading()
    }
  }

  datatype Writer = NoWriter | WriterIs(tid: Tid)

  datatype State = State(tokens: Tokens, nextCleanup: nat, readers: set<Tid>, writer: Writer, pcs: map<Tid, Pc>) {
    function Pc(t: Tid): Pc { if t in pcs then pcs[t] else Resting }

    function Goto(t: Tid, pc: Pc): State { this.(pcs := pcs[t := pc]) }
  }

  /** A step of one thread; `Go` is its next instruction. */
  datatype Label = Begin(t: Tid, call: Call) | LoadDue(t: Tid, elapsed: nat) | Go(t: Tid)

  function Initial(cfg: Config): State {
    State(map[], Saturated(cfg.cleanupInterval), {}, NoWriter, map[])
  }

  /** The single-lock store: the whole call at once. */
  function Atomic(cfg: Config, tokens: Tokens, call: Call): (Tokens, Reply) {
    match call
    case DoIssue(token, tokenId, request, now) => Step(cfg, tokens, Issue(token, tokenId, request, now))
    case DoRevoke(token) => Step(cfg, tokens, Revoke(token, 0))
    case DoValidate(token, mode, now) => Validated(cfg, tokens, token, mode, now)
  }

  /** The state after a step, or nothing when the thread cannot take it. */
  function Next(cfg: Config, s: State, l: Label): Option<State> {
    var pc := s.Pc(l.t);
    match l
    case Begin(t, call) =>
      if !pc.Resting? then None
      else Some(s.Goto(t, if call.DoValidate? then CheckDue(call) else WriteWait(call)))
    case LoadDue(t, elapsed) =>
      if !pc.CheckDue? || elapsed > U64_MAX then None
      else if elapsed < s.nextCleanup then Some(s.Goto(t, ReadWait(pc.call)))
      else Some(s.Goto(t, Swap(pc.call, elapsed, s.nextCleanup)))
    case Go(t) => Instruction(cfg, s, t)
  }

  function Instruction(cfg: Config, s: State, t: Tid): Option<State> {
    match s.Pc(t)
    case Swap(call, elapsed, due) =>
      if s.nextCleanup == due
      then Some(s.(nextCleanup := Saturated(elapsed + cfg.cleanupInterval)).Goto(t, SweepWait(call)))
      else Some(s.Goto(t, ReadWait(call)))
    case SweepWait(call) => AcquireWrite(s, t, SweepHold(call))
    case SweepHold(call) =>
      if call.DoValidate?
      then Some(s.(tokens := Sweep(cfg, s.tokens, call.now)).Goto(t, SweepExit(call)))
      else None
    case SweepExit(call) => Some(s.(writer := NoWriter).Goto(t, ReadWait(call)))
    case ReadWait(call) =>
      if s.writer.NoWriter? then Some(s.(readers := s.readers + {t}).Goto(t, ReadHold(call))) else None
    case ReadHold(call) =>
      if !call.DoValidate? then None
      else if call.token !in s.tokens then Some(s.Goto(t, ReadExit(call, NotFound)))
      else if Verdict(cfg, s.tokens[call.token], call.now, call.mode) == Valid
      then Some(s.Goto(t, TouchHold(call, s.tokens[call.token])))
      else Some(s.Goto(t, ReadMiss(call)))
    case TouchHold(call, seen) =>
      if call.DoValidate? && call.token in s.tokens
      then Some(s.(tokens := s.tokens[call.token := s.tokens[call.token].Touch(call.now)])
                .Goto(t, ReadExit(call, Accepted(seen.claims))))
      else None
    case ReadMiss(call) => Some(s.(readers := s.readers - {t}).Goto(t, WriteWait(call)))
    case ReadExit(call, reply) => Some(s.(readers := s.readers - {t}).Goto(t, Replied(call, reply)))
    case WriteWait(call) => AcquireWrite(s, t, WriteHold(call))
    case WriteHold(call) =>
      var (tokens, reply) := Atomic(cfg, s.tokens, call);
      Some(s.(tokens := tokens).Goto(t, WriteExit(call, reply)))
    case WriteExit(call, reply) => Some(s.(writer := NoWriter).Goto(t, Replied(call, reply)))
    case Replied(_, _) => Some(s.Goto(t, Resting))
    case _ => None
  }

  function AcquireWrite(s: State, t: Tid, pc: Pc): Option<State> {
    if s.readers == {} && s.writer.NoWriter? then Some(s.(writer := WriterIs(t)).Goto(t, pc)) else None
  }

  // ---------------------------------------------------------------- what every step keeps

  /** The lock's books are right and writers exclude everyone. */
  ghost predicate LockInv(s: State) {
    && (forall t :: t in s.readers <==> s.Pc(t).Reading())
    && (forall t :: s.writer == WriterIs(t) <==> s.Pc(t).Writing())
    && (s.writer.WriterIs? ==> s.readers == {})
  }

  /** An entry about to be touched is still there, unchanged but for later touches. */
  ghost predicate PcInv(cfg: Config, tokens: Tokens, pc: Pc) {
    && (pc.Validating() ==> pc.call.DoValidate?)
    && (pc.Swap? ==> pc.due <= pc.elapsed <= U64_MAX)
    && (pc.TouchHold? ==>
          && pc.call.token in tokens
          && tokens[pc.call.token].claims == pc.seen.claims
          && pc.seen.lastActivity <= tokens[pc.call.token].lastActivity
          && Verdict(cfg, pc.seen, pc.call.now, pc.call.mode) == Valid)
  }

  ghost predicate Inv(cfg: Config, s: State) {
    && LockInv(s)
    && s.nextCleanup <= U64_MAX
    && forall t :: PcInv(cfg, s.tokens, s.Pc(t))
  }

  /** Only a writer removes or replaces entries; a reader at most touches one. */
  lemma StepKeepsEntries(cfg: Config, s: State, l: Label, token: Token)
    requires Inv(cfg, s) && Next(cfg, s, l).Some? && !s.Pc(l.t).Writing() && token in s.tokens
    ensures var tokens' := Next(cfg, s, l).value.tokens;
            && token in tokens' && tokens'[token].claims == s.tokens[token].claims
            && s.tokens[token].lastActivity <= tokens'[token].lastActivity
  {
  }

  lemma StepKeepsLockInv(cfg: Config, s: State, l: Label)
    requires LockInv(s) && Next(cfg, s, l).Some?
    ensures LockInv(Next(cfg, s, l).value)
    ensures forall t | t != l.t :: Next(cfg, s, l).value.Pc(t) == s.Pc(t)
  {
    var s' := Next(cfg, s, l).value;
    assert s.Pc(l.t).Writing() ==> s.readers == {};
    assert forall t | t != l.t :: s'.Pc(t) == s.Pc(t);
  }

  /** The stepping thread's own obligations. */
  lemma StepKeepsOwnPcInv(cfg: Config, s: State, l: Label)
    requires Inv(cfg, s) && Next(cfg, s, l).Some?
    ensures var s' := Next(cfg, s, l).value;
            PcInv(cfg, s'.tokens, s'.Pc(l.t)) && s'.nextCleanup <= U64_MAX
  {
    assert PcInv(cfg, s.tokens, s.Pc(l.t));
  }

  lemma StepKeepsInv(cfg: Config, s: State, l: Label)
    requires Inv(cfg, s) && Next(cfg, s, l).Some?
    ensures Inv(cfg, Next(cfg, s, l).value)
  {
    var s' := Next(cfg, s, l).value;
    StepKeepsLockInv(cfg, s, l);
    StepKeepsOwnPcInv(cfg, s, l);
    forall t | t != l.t
      ensures PcInv(cfg, s'.tokens, s'.Pc(t))
    {
      assert PcInv(cfg, s.tokens, s.Pc(t));
      if s.Pc(t).TouchHold? {
        assert t in s.readers;
        StepKeepsEntries(cfg, s, l, s.Pc(t).call.token);
      }
    }
  }

  // ---------------------------------------------------------------- linearization

  /** The moment a call, or a sweep, takes effect. */
  datatype Effect = Swept(now: int) | Took(t: Tid, call: Call, reply: Reply)

  function EffectOf(cfg: Config, s: State, l: Label): Option<Effect> {
    if !l.Go? then None
    else
      match s.Pc(l.t)
      case SweepHold(call) => if call.DoValidate? then Some(Swept(call.now)) else None
      case ReadHold(call) => if call.token !in s.tokens then Some(Took(l.t, call, NotFound)) else None
      case TouchHold(call, seen) => Some(Took(l.t, call, Accepted(seen.claims)))
      case WriteHold(call) => Some(Took(l.t, call, Atomic(cfg, s.tokens, call).1))
      case _ => None
  }

  function Applied(cfg: Config, tokens: Tokens, e: Effect): Tokens {
    match e
    case Swept(now) => Sweep(cfg, tokens, now)
    case Took(_, call, _) => Atomic(cfg, tokens, call).0
  }

  /** The single-lock store would have answered the same at this moment. */
  ghost predicate Answers(cfg: Config, tokens: Tokens, e: Effect) {
    e.Took? ==> e.reply == Atomic(cfg, tokens, e.call).1
  }

  /** Every step either leaves the tokens alone or is one whole single-lock operation,
      answered alike: the fast path's separate load and touch included. */
  lemma StepRefinesAtomicStore(cfg: Config, s: State, l: Label)
    requires Inv(cfg, s) && Next(cfg, s, l).Some?
    ensures var s' := Next(cfg, s, l).value;
            match EffectOf(cfg, s, l)
            case None => s'.tokens == s.tokens
            case Some(e) => s'.tokens == Applied(cfg, s.tokens, e) && Answers(cfg, s.tokens, e)
  {
    var pc := s.Pc(l.t);
    assert PcInv(cfg, s.tokens, pc);
    if l.Go? && pc.TouchHold? {
      assert Verdict(cfg, s.tokens[pc.call.token], pc.call.now, pc.call.mode) == Valid;
    }
  }

  // ---------------------------------------------------------------- whole runs

  ghost predicate Run(cfg: Config, ss: seq<State>, ls: seq<Label>) {
    && |ss| == |ls| + 1
    && ss[0] == Initial(cfg)
    && forall i | 0 <= i < |ls| :: Next(cfg, ss[i], ls[i]) == Some(ss[i + 1])
  }

  lemma {:induction false} RunKeepsInv(cfg: Config, ss: seq<State>, ls: seq<Label>, n: nat)
    requires Run(cfg, ss, ls) && n <= |ls|
    ensures Inv(cfg, ss[n])
  {
    if n > 0 {
      RunKeepsInv(cfg, ss, ls, n - 1);
      StepKeepsInv(cfg, ss[n - 1], ls[n - 1]);
    }
  }

  /** The effects of the first `n` steps, in order. */
  ghost function Effects(cfg: Config, ss: seq<State>, ls: seq<Label>, n: nat): seq<Effect>
    requires |ss| == |ls| + 1 && n <= |ls|
  {
    if n == 0 then []
    else
      var before := Effects(cfg, ss, ls, n - 1);
      match EffectOf(cfg, ss[n - 1], ls[n - 1])
      case None => before
      case Some(e) => before + [e]
  }

  /** The single-lock store after a list of operations. */
  ghost function Replay(cfg: Config, es: seq<Effect>): Tokens {
    if es == [] then map[]
    else Applied(cfg, Replay(cfg, es[..|es| - 1]), es[|es| - 1])
  }

  /** A sequential history of the single-lock store: each answer is the store's own. */
  ghost predicate Sequential(cfg: Config, es: seq<Effect>) {
    forall k | 0 <= k < |es| :: Answers(cfg, Replay(cfg, es[..k]), es[k])
  }

  /** Every interleaving is a sequential history of the single-lock store, with the
      same tokens at every point and the same answer for every call. */
  lemma {:induction false} RunsAreLinearizable(cfg: Config, ss: seq<State>, ls: seq<Label>, n: nat)
    requires Run(cfg, ss, ls) && n <= |ls|
    ensures Sequential(cfg, Effects(cfg, ss, ls, n))
    ensures Replay(cfg, Effects(cfg, ss, ls, n)) == ss[n].tokens
  {
    hide Next;
    hide EffectOf;
    hide Applied;
    hide Answers;
    if n > 0 {
      RunsAreLinearizable(cfg, ss, ls, n - 1);
      RunKeepsInv(cfg, ss, ls, n - 1);
      assert Next(cfg, ss[n - 1], ls[n - 1]) == Some(ss[n]);
      StepRefinesAtomicStore(cfg, ss[n - 1], ls[n - 1]);
      var before, after := Effects(cfg, ss, ls, n - 1), Effects(cfg, ss, ls, n);
      if after != before {
        assert after[..|before|] == before;
        forall k | 0 <= k < |after|
          ensures Answers(cfg, Replay(cfg, after[..k]), after[k])
        {
          assert k < |before| ==> after[..k] == before[..k];
        }
      }
    }
  }

  /** Step `k` is where thread `t`'s `call` takes effect with `reply`. */
  ghost predicate TakesEffect(cfg: Config, ss: seq<State>, ls: seq<Label>, k: nat, t: Tid)
    requires |ss| == |ls| + 1 && k < |ls|
  {
    var e := EffectOf(cfg, ss[k], ls[k]);
    e.Some? && e.value.Took? && e.value.t == t
  }

  /** Between `b` and `n`, thread `t` is inside the one call it began at `b`. */
  ghost predicate Inside(ss: seq<State>, ls: seq<Label>, b: nat, n: nat, t: Tid, call: Call)
    requires |ss| == |ls| + 1 && n <= |ls|
  {
    && b < n && ls[b] == Begin(t, call)
    && forall x | b < x <= n :: !ss[x].Pc(t).Resting?
  }

  /** One step of the run seen from thread `t`: the answer is settled by the very step
      that takes effect, and never changes afterwards. */
  lemma StepSettlesOnce(cfg: Config, s: State, l: Label, t: Tid)
    requires Inv(cfg, s) && Next(cfg, s, l).Some?
    ensures var was, now, e := s.Pc(t), Next(cfg, s, l).value.Pc(t), EffectOf(cfg, s, l);
            && (was.Resting? && !now.Resting? ==> l == Begin(t, now.call) && !now.Decided())
            && (!was.Resting? && !now.Resting? ==> now.call == was.call)
            && (was.Decided() && !now.Resting? ==> now.Decided() && now.reply == was.reply)
            && ((e.Some? && e.value.Took? && e.value.t == t) <==> now.Decided() && !was.Decided())
            && (now.Decided() && !was.Decided() ==> e.value == Took(t, now.call, now.reply))
  {
    assert PcInv(cfg, s.tokens, s.Pc(t));
    StepKeepsLockInv(cfg, s, l);
  }

  /** Inside a call: the call's start `b`, and once it is decided the single step `k`
      after the start at which it took effect, with the answer it will return. */
  lemma {:induction false} CallTakesEffectOnce(cfg: Config, ss: seq<State>, ls: seq<Label>, n: nat, t: Tid)
    returns (b: nat, k: nat)
    requires Run(cfg, ss, ls) && n <= |ls|
    requires !ss[n].Pc(t).Resting?
    ensures Inside(ss, ls, b, n, t, ss[n].Pc(t).call)
    ensures ss[n].Pc(t).Decided() ==>
              && b < k < n
              && EffectOf(cfg, ss[k], ls[k]) == Some(Took(t, ss[n].Pc(t).call, ss[n].Pc(t).reply))
    ensures forall x | b <= x < n :: TakesEffect(cfg, ss, ls, x, t) <==> ss[n].Pc(t).Decided() && x == k
  {
    hide Next;
    hide EffectOf;
    hide Inv;
    assert Next(cfg, ss[n - 1], ls[n - 1]) == Some(ss[n]);
    RunKeepsInv(cfg, ss, ls, n - 1);
    StepSettlesOnce(cfg, ss[n - 1], ls[n - 1], t);
    if ss[n - 1].Pc(t).Resting? {
      b, k := n - 1, n - 1;
    } else {
      b, k := CallTakesEffectOnce(cfg, ss, ls, n - 1, t);
      if ss[n].Pc(t).Decided() && !ss[n - 1].Pc(t).Decided() {
        k := n - 1;
      }
    }
  }

  /** What a call returns is what the single-lock store answered at one moment
      between the call's start and its return. */
  lemma ReturnedAnswerIsAtomic(cfg: Config, ss: seq<State>, ls: seq<Label>, i: nat, t: Tid)
    returns (b: nat, k: nat)
    requires Run(cfg, ss, ls) && i < |ls|
    requires ls[i] == Go(t) && ss[i].Pc(t).Replied?
    ensures b < k < i && Inside(ss, ls, b, i, t, ss[i].Pc(t).call)
    ensures Replay(cfg, Effects(cfg, ss, ls, k)) == ss[k].tokens
    ensures Atomic(cfg, ss[k].tokens, ss[i].Pc(t).call) == (ss[k + 1].tokens, ss[i].Pc(t).reply)
  {
    b, k := CallTakesEffectOnce(cfg, ss, ls, i, t);
    RunsAreLinearizable(cfg, ss, ls, k);
    RunKeepsInv(cfg, ss, ls, k);
    assert Next(cfg, ss[k], ls[k]) == Some(ss[k + 1]);
    StepRefinesAtomicStore(cfg, ss[k], ls[k]);
  }

  /** Expiry is exact: no accepted validation returns claims that were past their
      expiry (plus the refresh grace) when the call began. */
  lemma AcceptedClaimsAreCurrent(cfg: Config, ss: seq<State>, ls: seq<Label>, i: nat, t: Tid)
    requires Run(cfg, ss, ls) && i < |ls|
    requires ls[i] == Go(t) && ss[i].Pc(t).Replied? && ss[i].Pc(t).call.DoValidate?
    ensures ss[i].Pc(t).reply.Accepted? ==>
              var pc := ss[i].Pc(t);
              pc.call.now < pc.reply.claims.expiresAt + ExpiryGrace(cfg, pc.call.mode)
  {
    var b, k := ReturnedAnswerIsAtomic(cfg, ss, ls, i, t);
  }

  // ---------------------------------------------------------------- nobody waits for nothing

  /** A thread that holds the lock can always go on. */
  lemma HolderCanStep(cfg: Config, s: State, t: Tid)
    requires Inv(cfg, s) && (s.Pc(t).Reading() || s.Pc(t).Writing())
    ensures Next(cfg, s, Go(t)).Some?
  {
    assert PcInv(cfg, s.tokens, s.Pc(t));
    assert s.Pc(t).SweepHold? ==> s.Pc(t).call.DoValidate?;
  }

  /** No interleaving deadlocks: while any call is under way, some thread can step. */
  lemma SomeThreadCanStep(cfg: Config, ss: seq<State>, ls: seq<Label>, n: nat, t: Tid)
    requires Run(cfg, ss, ls) && n <= |ls| && !ss[n].Pc(t).Resting?
    ensures exists l :: Next(cfg, ss[n], l).Some? && !l.Begin?
  {
    RunKeepsInv(cfg, ss, ls, n);
    var s := ss[n];
    if s.writer.WriterIs? {
      var w := s.writer.tid;
      assert s.Pc(w).Writing();
      HolderCanStep(cfg, s, w);
    } else if s.readers != {} {
      var r :| r in s.readers;
      HolderCanStep(cfg, s, r);
    } else if s.Pc(t).CheckDue? {
      assert Next(cfg, s, LoadDue(t, 0)).Some?;
    } else {
      assert PcInv(cfg, s.tokens, s.Pc(t));
      assert Next(cfg, s, Go(t)).Some?;
    }
  }

  /** A valid token is answered under the read lock alone: however many readers hold it,
      four steps of the validating thread lead to acceptance. */
  lemma ValidTokenNeedsOnlyReadLock(cfg: Config, s: State, t: Tid) returns (path: seq<State>)
    requires Inv(cfg, s) && s.writer.NoWriter? && s.Pc(t).ReadWait?
    requires s.Pc(t).call.token in s.tokens
    requires s.Pc(t).call.DoValidate? ==>
               Verdict(cfg, s.tokens[s.Pc(t).call.token], s.Pc(t).call.now, s.Pc(t).call.mode) == Valid
    ensures |path| == 5 && path[0] == s
    ensures forall i | 0 <= i < 4 :: Next(cfg, path[i], Go(t)) == Some(path[i + 1])
    ensures path[4].Pc(t) == Replied(s.Pc(t).call, Accepted(s.tokens[s.Pc(t).call.token].claims))
  {
    var call := s.Pc(t).call;
    assert PcInv(cfg, s.tokens, s.Pc(t));
    var entry := s.tokens[call.token];
    var s1 := s.(readers := s.readers + {t}).Goto(t, ReadHold(call));
    var s2 := s1.Goto(t, TouchHold(call, entry));
    var s3 := s2.(tokens := s2.tokens[call.token := entry.Touch(call.now)])
                .Goto(t, ReadExit(call, Accepted(entry.claims)));
    var s4 := s3.(readers := s3.readers - {t}).Goto(t, Replied(call, Accepted(entry.claims)));
    assert Next(cfg, s, Go(t)) == Some(s1);
    assert Next(cfg, s1, Go(t)) == Some(s2);
    assert Next(cfg, s2, Go(t)) == Some(s3);
    assert Next(cfg, s3, Go(t)) == Some(s4);
    hide Next;
    path := [s, s1, s2, s3, s4];
  }

  // ---------------------------------------------------------------- revocation is exact

  ghost predicate IssuesAt(cfg: Config, ss: seq<State>, ls: seq<Label>, x: nat, token: Token)
    requires |ss| == |ls| + 1 && x < |ls|
  {
    var e := EffectOf(cfg, ss[x], ls[x]);
    e.Some? && e.value.Took? && e.value.call.DoIssue? && e.value.call.token == token
  }

  lemma {:induction false} StaysGone(cfg: Config, ss: seq<State>, ls: seq<Label>, lo: nat, hi: nat, token: Token)
    requires Run(cfg, ss, ls) && lo <= hi <= |ls|
    requires token !in ss[lo].tokens
    requires forall x | lo <= x < hi :: !IssuesAt(cfg, ss, ls, x, token)
    ensures token !in ss[hi].tokens
    decreases hi
  {
    if lo < hi {
      StaysGone(cfg, ss, ls, lo, hi - 1, token);
      RunKeepsInv(cfg, ss, ls, hi - 1);
      assert Next(cfg, ss[hi - 1], ls[hi - 1]) == Some(ss[hi]);
      StepRefinesAtomicStore(cfg, ss[hi - 1], ls[hi - 1]);
      assert !IssuesAt(cfg, ss, ls, hi - 1, token);
    }
  }

  /** A validation that starts after `revoke` returned finds nothing, unless the
      same token string was issued again from the start of the revocation on. */
  lemma NoValidationAfterRevoke(cfg: Config, ss: seq<State>, ls: seq<Label>,
                                begun: nat, revoker: Tid, revoked: nat,
                                started: nat, user: Tid, returned: nat)
    requires Run(cfg, ss, ls) && begun < revoked < started < returned < |ls|
    requires ls[revoked] == Go(revoker) && ss[revoked].Pc(revoker).Replied?
    requires ss[revoked].Pc(revoker).call.DoRevoke?
    requires Inside(ss, ls, begun, revoked, revoker, ss[revoked].Pc(revoker).call)
    requires ls[returned] == Go(user) && ss[returned].Pc(user).Replied?
    requires ss[returned].Pc(user).call.DoValidate?
    requires Inside(ss, ls, started, returned, user, ss[returned].Pc(user).call)
    requires ss[returned].Pc(user).call.token == ss[revoked].Pc(revoker).call.token
    requires forall x | begun <= x < returned :: !IssuesAt(cfg, ss, ls, x, ss[revoked].Pc(revoker).call.token)
    ensures ss[returned].Pc(user).reply == NotFound
  {
    var token := ss[revoked].Pc(revoker).call.token;
    var b0, k0 := ReturnedAnswerIsAtomic(cfg, ss, ls, revoked, revoker);
    var b1, k1 := ReturnedAnswerIsAtomic(cfg, ss, ls, returned, user);
    OneStart(cfg, ss, ls, begun, b0, revoked, revoker, ss[revoked].Pc(revoker).call);
    OneStart(cfg, ss, ls, started, b1, returned, user, ss[returned].Pc(user).call);
    assert token !in ss[k0 + 1].tokens;
    StaysGone(cfg, ss, ls, k0 + 1, k1, token);
  }

  /** A call has one start. */
  lemma OneStart(cfg: Config, ss: seq<State>, ls: seq<Label>, b: nat, b': nat, n: nat, t: Tid, call: Call)
    requires Run(cfg, ss, ls) && n <= |ls|
    requires Inside(ss, ls, b, n, t, call) && Inside(ss, ls, b', n, t, call)
    ensures b == b'
  {
    assert Next(cfg, ss[b], ls[b]) == Some(ss[b + 1]);
    assert Next(cfg, ss[b'], ls[b']) == Some(ss[b' + 1]);
  }

  // ---------------------------------------------------------------- sweeper election

  /** Step `x` wins the compare-exchange and will sweep. */
  ghost predicate Wins(ss: seq<State>, ls: seq<Label>, x: nat)
    requires |ss| == |ls| + 1 && x < |ls|
  {
    && ls[x].Go? && ss[x].Pc(ls[x].t).Swap?
    && ss[x].nextCleanup == ss[x].Pc(ls[x].t).due
  }

  lemma {:induction false} NextCleanupNeverDecreases(cfg: Config, ss: seq<State>, ls: seq<Label>, m: nat, n: nat)
    requires Run(cfg, ss, ls) && m <= n <= |ls|
    ensures ss[m].nextCleanup <= ss[n].nextCleanup
    decreases n
  {
    if m < n {
      NextCleanupNeverDecreases(cfg, ss, ls, m, n - 1);
      RunKeepsInv(cfg, ss, ls, n - 1);
      assert PcInv(cfg, ss[n - 1].tokens, ss[n - 1].Pc(ls[n - 1].t));
      assert Next(cfg, ss[n - 1], ls[n - 1]) == Some(ss[n]);
    }
  }

  /** Two winning sweeps are a full interval apart by their own stamps, up to the
      saturation of the 64-bit due time. */
  lemma WinnersAreAnIntervalApart(cfg: Config, ss: seq<State>, ls: seq<Label>, x: nat, y: nat)
    requires Run(cfg, ss, ls) && x < y < |ls|
    requires Wins(ss, ls, x) && Wins(ss, ls, y)
    ensures ss[y].Pc(ls[y].t).elapsed >= Saturated(ss[x].Pc(ls[x].t).elapsed + cfg.cleanupInterval)
  {
    assert Next(cfg, ss[x], ls[x]) == Some(ss[x + 1]);
    NextCleanupNeverDecreases(cfg, ss, ls, x + 1, y);
    RunKeepsInv(cfg, ss, ls, y);
    assert PcInv(cfg, ss[y].tokens, ss[y].Pc(ls[y].t));
  }
}
