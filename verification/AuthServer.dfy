/** The services under a sequence of requests. */
module AuthServer {
  import opened Text
  import opened Auth
  import opened AuthServices
  import opened AuthRuns

  method Handle(service: AuthService, op: Op) returns (r: Outcome)
    modifies service, service.sessions
    ensures (r, service.State()) == Apply(service.env, old(service.State()), op)
  {
    match op {
      case Register(email, passwordHash, token, now) => r := service.Register(email, passwordHash, token, now);
      case Google(sub, email, verified, token, now) => r := service.LoginWithGoogle(sub, email, verified, token, now);
      case Login(email, password, factor, token, now) => r := service.Login(email, password, factor, token, now);
      case CompleteMfa(id, factor, token, now) => r := service.CompleteMfa(id, factor, token, now);
      case Refresh(refreshToken, token, now) => r := service.Refresh(refreshToken, token, now);
      case Logout(refreshToken, now) => r := service.Logout(refreshToken, now);
      case BeginEnrollment(user, secret) => r := service.BeginEnrollment(user, secret);
      case Activate(user, code, codes, now) => r := service.Activate(user, code, codes, now);
      case Disable(user, factor, now) => r := service.Disable(user, factor, now);
      case Regenerate(user, code, codes, now) => r := service.Regenerate(user, code, codes, now);
      case SetMember(user, member) => r := service.SetMember(user, member);
    }
  }

  /** Requests served one after the other take the objects through the states of a run, with its outcomes. */
  method Serve(env: Env, ops: seq<Op>) returns (service: AuthService, outcomes: seq<Outcome>)
    ensures fresh(service) && fresh(service.sessions) && service.State() == Before(env, ops, |ops|)
    ensures |outcomes| == |ops| && forall k :: 0 <= k < |ops| ==> outcomes[k] == OutcomeAt(env, ops, k)
  {
    hide Apply, After;
    service := new AuthService(env);
    outcomes := [];
    NothingServed(env, ops);
    for n := 0 to |ops|
      invariant fresh(service) && fresh(service.sessions) && service.env == env
      invariant service.State() == Before(env, ops, n)
      invariant |outcomes| == n && forall k :: 0 <= k < n ==> outcomes[k] == OutcomeAt(env, ops, k)
    {
      BeforeNext(env, ops, n);
      var r := Handle(service, ops[n]);
      outcomes := outcomes + [r];
    }
  }

  lemma NothingServed(env: Env, ops: seq<Op>)
    ensures Before(env, ops, 0) == INITIAL
  {
  }
}
