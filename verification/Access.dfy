/** Authorization of Proxy Delivery (internal/access/access.go). */
module Access {
  import opened Basics
  import opened Percent
  import opened PathPolicy

  datatype Mode = Proxy | Reveal

  /** One Policy entry; methods or paths left out limit nothing. */
  datatype Grant = Grant(secretName: string, delivery: seq<Mode>, methods: Option<seq<string>>, paths: Option<seq<PathPrefix>>)

  datatype Config = Config(secrets: set<string>, policies: map<string, seq<Grant>>)

  datatype Denial = UnknownSecretName | NoPolicy | NoMethod | NoPath

  datatype Verdict = Allowed | Denied(why: Denial)

  /** A request for one Secret: the method, the escaped path after the Upstream, what text is valid. */
  datatype Request = Request(secretName: string, verb: string, path: string, utf8: Utf8)

  predicate Concerns(g: Grant, q: Request) { g.secretName == q.secretName && Proxy in g.delivery }

  predicate AdmitsMethod(g: Grant, q: Request) { g.methods.Some? ==> q.verb in g.methods.value }

  predicate AdmitsPath(g: Grant, q: Request) {
    g.paths.Some? ==> exists i :: 0 <= i < |g.paths.value| && Matches(q.utf8, g.paths.value[i], q.path)
  }

  /** The entries a token's Policies give it; a Policy no longer in the config gives none. */
  ghost function Grants(cfg: Config, policies: seq<string>): set<Grant> {
    set n, i | n in policies && n in cfg.policies && 0 <= i < |cfg.policies[n]| :: cfg.policies[n][i]
  }

  /** One single entry admits both the method and the path. */
  ghost predicate Admitted(gs: set<Grant>, q: Request) {
    exists g :: g in gs && Concerns(g, q) && AdmitsMethod(g, q) && AdmitsPath(g, q)
  }

  /** The furthest any entry got: no entry for the Secret, none for the method, none for the path. */
  ghost function WhyNot(gs: set<Grant>, q: Request): Denial {
    if exists g :: g in gs && Concerns(g, q) && AdmitsMethod(g, q) then NoPath
    else if exists g :: g in gs && Concerns(g, q) then NoMethod
    else NoPolicy
  }

  /** The verdict as a function of the set of entries: it cannot depend on their order. */
  ghost function Judge(cfg: Config, gs: set<Grant>, q: Request): Verdict {
    if q.secretName !in cfg.secrets then Denied(UnknownSecretName)
    else if Admitted(gs, q) then Allowed
    else Denied(WhyNot(gs, q))
  }

  /** The entries looked at so far: all of the first k Policies, and the first j of the next. */
  ghost function SeenGrants(cfg: Config, policies: seq<string>, k: nat, j: nat): set<Grant>
    requires k <= |policies|
  {
    Grants(cfg, policies[..k]) +
    if k < |policies| && policies[k] in cfg.policies && j <= |cfg.policies[policies[k]]|
    then (set i | 0 <= i < j :: cfg.policies[policies[k]][i]) else {}
  }

  lemma SeenOneMore(cfg: Config, policies: seq<string>, k: nat, j: nat)
    requires k < |policies| && policies[k] in cfg.policies && j < |cfg.policies[policies[k]]|
    ensures SeenGrants(cfg, policies, k, j + 1) == SeenGrants(cfg, policies, k, j) + {cfg.policies[policies[k]][j]}
  {
  }

  lemma SeenPolicy(cfg: Config, policies: seq<string>, k: nat)
    requires k < |policies|
    ensures SeenGrants(cfg, policies, k, 0) == Grants(cfg, policies[..k])
    ensures policies[k] in cfg.policies ==>
              SeenGrants(cfg, policies, k, |cfg.policies[policies[k]]|) == Grants(cfg, policies[..k + 1])
    ensures policies[k] !in cfg.policies ==> Grants(cfg, policies[..k]) == Grants(cfg, policies[..k + 1])
  {
    assert policies[..k + 1] == policies[..k] + [policies[k]];
    assert forall n :: n in policies[..k + 1] <==> n in policies[..k] || n == policies[k];
  }

  /** What one more entry does to a verdict that is still a denial. */
  lemma WhyNotMore(gs: set<Grant>, g: Grant, q: Request)
    requires !Admitted(gs, q)
    ensures Concerns(g, q) && AdmitsMethod(g, q) && AdmitsPath(g, q) ==> Admitted(gs + {g}, q)
    ensures !(Concerns(g, q) && AdmitsMethod(g, q) && AdmitsPath(g, q)) ==> !Admitted(gs + {g}, q)
    ensures WhyNot(gs + {g}, q) ==
            if !Concerns(g, q) then WhyNot(gs, q)
            else if !AdmitsMethod(g, q) then (if WhyNot(gs, q) == NoPolicy then NoMethod else WhyNot(gs, q))
            else NoPath
  {
    hide AdmitsMethod, AdmitsPath, Concerns;
    assert g in gs + {g};
    assert forall x :: x in gs ==> x in gs + {g};
  }

  method AuthorizeProxy(cfg: Config, policies: seq<string>, q: Request) returns (v: Verdict)
    ensures v == Judge(cfg, Grants(cfg, policies), q)
  {
    if q.secretName !in cfg.secrets {
      return Denied(UnknownSecretName);
    }
    hide AdmitsMethod, AdmitsPath, Concerns, WhyNot, Admitted, Grants, SeenGrants;
    var denial := NoPolicy;
    ghost var all := Grants(cfg, policies);
    NoGrants(cfg, q);
    assert policies[..0] == [];
    for k := 0 to |policies|
      invariant !Admitted(Grants(cfg, policies[..k]), q) && denial == WhyNot(Grants(cfg, policies[..k]), q)
    {
      SeenPolicy(cfg, policies, k);
      if policies[k] in cfg.policies {
        var grants := cfg.policies[policies[k]];
        for j := 0 to |grants|
          invariant !Admitted(SeenGrants(cfg, policies, k, j), q) && denial == WhyNot(SeenGrants(cfg, policies, k, j), q)
        {
          var g := grants[j];
          SeenOneMore(cfg, policies, k, j);
          WhyNotMore(SeenGrants(cfg, policies, k, j), g, q);
          if !Concerns(g, q) {
            continue;
          }
          if !AdmitsMethod(g, q) {
            if denial == NoPolicy {
              denial := NoMethod;
            }
            continue;
          }
          if !AdmitsPath(g, q) {
            denial := NoPath;
            continue;
          }
          GrantIsGranted(cfg, policies, k, j);
          AdmittedBy(all, g, q);
          return Allowed;
        }
      }
    }
    assert policies[..|policies|] == policies;
    return Denied(denial);
  }

  lemma NoGrants(cfg: Config, q: Request)
    ensures Grants(cfg, []) == {} && !Admitted({}, q) && WhyNot({}, q) == NoPolicy
  {
  }

  lemma GrantIsGranted(cfg: Config, policies: seq<string>, k: nat, j: nat)
    requires k < |policies| && policies[k] in cfg.policies && j < |cfg.policies[policies[k]]|
    ensures cfg.policies[policies[k]][j] in Grants(cfg, policies)
  {
  }

  lemma AdmittedBy(gs: set<Grant>, g: Grant, q: Request)
    requires g in gs && Concerns(g, q) && AdmitsMethod(g, q) && AdmitsPath(g, q)
    ensures Admitted(gs, q)
  {
  }

  /* ----- what follows for tokens and paths ----- */

  /** The verdict, told entry by entry: allowed if some one entry for the Secret and for Proxy Delivery
      admits both the method and the path; otherwise the reason is how far the entries got. */
  lemma JudgeMeans(cfg: Config, policies: seq<string>, q: Request)
    ensures var v := Judge(cfg, Grants(cfg, policies), q);
            && (v == Denied(UnknownSecretName) <==> q.secretName !in cfg.secrets)
            && (v.Allowed? <==>
                  q.secretName in cfg.secrets &&
                  exists n, i :: n in policies && n in cfg.policies && 0 <= i < |cfg.policies[n]| &&
                    var g := cfg.policies[n][i];
                    && g.secretName == q.secretName && Proxy in g.delivery
                    && (g.methods.None? || q.verb in g.methods.value)
                    && (g.paths.None? || exists p :: p in g.paths.value && Matches(q.utf8, p, q.path)))
            && (v == Denied(NoPolicy) <==>
                  q.secretName in cfg.secrets &&
                  forall n, i :: n in policies && n in cfg.policies && 0 <= i < |cfg.policies[n]| ==>
                    var g := cfg.policies[n][i];
                    !(g.secretName == q.secretName && Proxy in g.delivery))
            && (v == Denied(NoPolicy) || v == Denied(NoMethod) ==>
                  forall n, i :: n in policies && n in cfg.policies && 0 <= i < |cfg.policies[n]| ==>
                    var g := cfg.policies[n][i];
                    !(g.secretName == q.secretName && Proxy in g.delivery && (g.methods.None? || q.verb in g.methods.value)))
            && (v == Denied(NoPath) ==>
                  exists n, i :: n in policies && n in cfg.policies && 0 <= i < |cfg.policies[n]| &&
                    var g := cfg.policies[n][i];
                    g.secretName == q.secretName && Proxy in g.delivery && (g.methods.None? || q.verb in g.methods.value))
  {
    forall n, i | n in policies && n in cfg.policies && 0 <= i < |cfg.policies[n]|
      ensures cfg.policies[n][i] in Grants(cfg, policies)
    {
    }
    forall g
      ensures AdmitsPath(g, q) <==> g.paths.None? || exists p :: p in g.paths.value && Matches(q.utf8, p, q.path)
    {
      AdmitsPathMeans(g, q);
    }
    hide Matches, AdmitsPath;
  }

  lemma AdmitsPathMeans(g: Grant, q: Request)
    ensures AdmitsPath(g, q) <==> g.paths.None? || exists p :: p in g.paths.value && Matches(q.utf8, p, q.path)
  {
    hide Matches;
    if g.paths.Some? {
      if p :| p in g.paths.value && Matches(q.utf8, p, q.path) {
        var i :| 0 <= i < |g.paths.value| && g.paths.value[i] == p;
      }
    }
  }

  /** Neither the order of a token's Policies, nor repeating one, shows in the verdict or its reason. */
  lemma OrderDoesNotMatter(cfg: Config, a: seq<string>, b: seq<string>, q: Request)
    requires forall n :: n in a <==> n in b
    ensures Judge(cfg, Grants(cfg, a), q) == Judge(cfg, Grants(cfg, b), q)
  {
    assert Grants(cfg, a) == Grants(cfg, b);
  }

  /** More Policies never take a Delivery away, and never make a reason less specific. */
  lemma MorePoliciesAllowMore(cfg: Config, a: seq<string>, b: seq<string>, q: Request)
    requires forall n :: n in a ==> n in b
    ensures Judge(cfg, Grants(cfg, a), q).Allowed? ==> Judge(cfg, Grants(cfg, b), q).Allowed?
    ensures Judge(cfg, Grants(cfg, b), q) == Denied(NoPolicy) ==> Judge(cfg, Grants(cfg, a), q) == Denied(NoPolicy)
  {
    hide AdmitsMethod, AdmitsPath, Concerns;
    assert Grants(cfg, a) <= Grants(cfg, b);
  }

  /** An entry that does not name Proxy Delivery, or names another Secret, changes no verdict. */
  lemma OtherEntriesDoNotMatter(cfg: Config, gs: set<Grant>, g: Grant, q: Request)
    requires Proxy !in g.delivery || g.secretName != q.secretName
    ensures Judge(cfg, gs + {g}, q) == Judge(cfg, gs, q)
  {
    assert !Concerns(g, q);
    hide AdmitsMethod, AdmitsPath, Concerns;
    assert forall x :: x in gs + {g} && Concerns(x, q) <==> x in gs && Concerns(x, q);
  }

  /** Percent-encoding a byte of a path segment changes no verdict and no reason. */
  lemma EncodingChangesNoVerdict(cfg: Config, policies: seq<string>, q: Request, u: string, c: char, h: char, l: char, v: string)
    requires q.path == u + [c] + v && c != '/' && c != '%' && FromHex(h, l) == Some(c) && h != '/' && l != '/'
    requires Unescape(LastSegment(u), false).Some?
    ensures Judge(cfg, Grants(cfg, policies), q) == Judge(cfg, Grants(cfg, policies), q.(path := u + ['%', h, l] + v))
  {
    var q' := q.(path := u + ['%', h, l] + v);
    EncodingChangesNothing(q.utf8, u, c, h, l, v);
    hide Decode, Unescape, FromHex, LastSegment;
    forall g
      ensures AdmitsPath(g, q) == AdmitsPath(g, q') && AdmitsMethod(g, q) == AdmitsMethod(g, q') && Concerns(g, q) == Concerns(g, q')
    {
      assert forall p :: Matches(q.utf8, p, q.path) == Matches(q.utf8, p, q'.path);
    }
    hide AdmitsPath, AdmitsMethod, Concerns;
    assert Admitted(Grants(cfg, policies), q) == Admitted(Grants(cfg, policies), q');
  }
}
