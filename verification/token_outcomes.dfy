/** Over whole runs: which replies a task must have had to end with `token_expired`. */
module TokenOutcomes {
  import opened Options
  import opened Errors
  import opened TokenProtocol
  import opened MachineInts
  import Decimal
  import TokenCache
  import TokenInvariant
  import TokenProgress
  import SendSpec

  /** The API answers task `t` with `401 token_expired`. */
  predicate ExpiredReply(step: Step, t: nat) {
    step.ApiReply? && step.task == t && step.status == 401 && IsTokenExpired(step.body)
  }

  /** The auth endpoint does. */
  predicate ExpiredRefusal(s: State, step: Step, t: nat) {
    && step.AuthRefusedBody? && step.task == t && step.error.Some? && step.error.value.code == TOKEN_EXPIRED
    && t < |s.tasks| && s.tasks[t].Refusing? && s.tasks[t].status == 401
  }

  ghost function ExpiredReplies(run: seq<Step>, t: nat): nat {
    TokenProgress.CountSteps(run, (step: Step) => ExpiredReply(step, t))
  }

  ghost predicate AuthSaidExpired(run: seq<Step>, t: nat)
    requires Valid(run)
    decreases |run|
  {
    run != [] && (AuthSaidExpired(run[..|run| - 1], t) || ExpiredRefusal(Final(run[..|run| - 1]), run[|run| - 1], t))
  }

  /** The caller was returned kind `TokenExpired`. */
  predicate EndedExpired(pc: Pc) {
    pc.Done? && pc.end.Returned? && SendSpec.SaysTokenExpired(pc.end.result)
  }

  /** Where a task stands after `replies` expired API replies, and possibly an expired auth answer. */
  predicate Accounts(pc: Pc, replies: nat, refused: bool) {
    if pc.Done? then replies <= 2 && (EndedExpired(pc) <==> replies == 2 || refused)
    else !refused && replies == if TokenInvariant.CarriesStale(pc) then 1 else 0
  }

  lemma AccountKeptByReply(s: State, step: Step, t: nat, replies: nat)
    requires Enabled(s, step) && t < |s.tasks| && Accounts(s.tasks[t], replies, false)
    requires step.ApiReply? && step.task == t
    ensures Accounts(Apply(s, step).tasks[t], replies + if ExpiredReply(step, t) then 1 else 0, false)
  {
    assert UNDECODABLE_ERROR.code[0] != TOKEN_EXPIRED[0];
  }

  lemma AccountKeptByRefusal(s: State, step: Step, t: nat, replies: nat)
    requires Enabled(s, step) && t < |s.tasks| && Accounts(s.tasks[t], replies, false)
    requires step.AuthRefusedBody? && step.task == t
    ensures Accounts(Apply(s, step).tasks[t], replies, ExpiredRefusal(s, step, t))
  {
    assert TokenCache.RefusalBody(s.tasks[t].status).code[0] != TOKEN_EXPIRED[0];
  }

  lemma AccountKept(s: State, step: Step, t: nat, replies: nat, refused: bool)
    requires Enabled(s, step) && t < |s.tasks| && Accounts(s.tasks[t], replies, refused)
    ensures t < |Apply(s, step).tasks|
    ensures Accounts(Apply(s, step).tasks[t],
                     replies + if ExpiredReply(step, t) then 1 else 0,
                     refused || ExpiredRefusal(s, step, t))
  {
    if step.ApiReply? && step.task == t {
      AccountKeptByReply(s, step, t, replies);
    } else if step.AuthRefusedBody? && step.task == t {
      AccountKeptByRefusal(s, step, t, replies);
    }
  }

  lemma {:induction false} NothingYet(run: seq<Step>, t: nat)
    requires Valid(run) && t >= |Final(run).tasks|
    ensures ExpiredReplies(run, t) == 0 && !AuthSaidExpired(run, t)
    decreases |run|
  {
    if run != [] {
      NothingYet(run[..|run| - 1], t);
    }
  }

  lemma {:induction false} Accounted(run: seq<Step>, t: nat)
    requires Valid(run) && t < |Final(run).tasks|
    ensures Accounts(Final(run).tasks[t], ExpiredReplies(run, t), AuthSaidExpired(run, t))
    decreases |run|
  {
    if run != [] {
      var before, step := run[..|run| - 1], run[|run| - 1];
      if t < |Final(before).tasks| {
        Accounted(before, t);
        AccountKept(Final(before), step, t, ExpiredReplies(before, t), AuthSaidExpired(before, t));
      } else {
        NothingYet(before, t);
      }
    }
  }

  /**
   However many tasks run, one ends with `token_expired` exactly when the API answered it so
   twice, or the auth endpoint answered it so. Any other task had at most one such reply.
   */
  lemma EndsExpiredIff(run: seq<Step>, t: nat)
    requires Valid(run) && t < |Final(run).tasks|
    ensures EndedExpired(Final(run).tasks[t]) <==> ExpiredReplies(run, t) >= 2 || AuthSaidExpired(run, t)
    ensures ExpiredReplies(run, t) <= 2
  {
    Accounted(run, t);
  }

  // ---- what an auth answer does to its task and to the cache ----

  /**
   Where the answer to an auth request leaves the task that asked, and the cache: only a
   refusal and a storable token touch it. The lock is free again in every case.
   */
  lemma AnswerEnds(s: State, step: Step)
    requires Enabled(s, step) && TokenInvariant.Settles(step)
    ensures var t, s' := step.task, Apply(s, step);
            var pc, pc' := s.tasks[t], s'.tasks[t];
            && s'.writer.None?
            && (step.AuthUnreachable? || step.AuthBodyLost? ==>
                  pc' == Done(Returned(Err(Http))) && s'.cache == s.cache)
            && (step.AuthRefusedBody? ==>
                  && pc' == Done(Returned(Err(Api(pc.status,
                              if step.error.Some? then step.error.value else
                                ErrorBody("unknown", "unknown",
                                          "auth request failed with status " + Decimal.Print(pc.status))))))
                  && s'.cache.None?)
            && (step.AuthBody? && pc.response.None? ==>
                  pc' == Done(Returned(Err(Decode(pc.status)))) && s'.cache == s.cache)
  {
  }

  /** A token is cached for its lifetime less 120 s, from when its body was read; past the clock's range the task panics. */
  lemma TokenStored(s: State, step: Step)
    requires Enabled(s, step) && step.AuthBody? && s.tasks[step.task].response.Some?
    requires -TWO_63 + 120 <= s.tasks[step.task].response.value.expiresIn
    ensures var t, s' := step.task, Apply(s, step);
            var response := s.tasks[t].response.value;
            var expiresAt := s.now + (if response.expiresIn < 120 then 0 else response.expiresIn - 120) * 1_000_000_000;
            if expiresAt < TWO_63 * 1_000_000_000 then
              && s'.tasks[t] == Ready(s.tasks[t].stale, response.token)
              && s'.cache == Some(TokenCache.TokenState(response.token, expiresAt))
            else
              s'.tasks[t] == Done(Returned(Panicked)) && s'.cache == s.cache
  {
    TokenCache.ExpiryExact(s.now, s.tasks[step.task].response.value.expiresIn);
  }
}
