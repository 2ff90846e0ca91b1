/** The category policy table, first-match resolution, and the limits each check enforces. */
module RateLimitPolicy {
  import opened Text

  datatype Dimension = Ip | User | Org | ApiKey | Session
  datatype Limits = Limits(sustained: int, burst: int)

  /** The anchored expressions of the table: a prefix, one non-empty path segment, a suffix. */
  datatype PathPattern = NoPattern | OneSegment(prefix: string, suffix: string)

  datatype Policy = Policy(
    category: string,
    prefixes: seq<string>,
    pattern: PathPattern,
    methods: Option<set<string>>,
    limits: Limits,
    failClosed: bool,
    org: Option<Limits>,
    session: Option<Limits>)

  const POST := Some({"POST"})
  const GET := Some({"GET"})

  const POLICIES: seq<Policy> := [
    Policy("auth_login", ["/api/v1/auth/login", "/api/v1/auth/register", "/api/v1/auth/refresh"], NoPattern, POST,
           Limits(20, 5), true, None, None),
    Policy("auth", ["/api/v1/auth"], NoPattern, None, Limits(40, 10), true, None, None),
    Policy("demo", ["/api/v1/demo"], NoPattern, None, Limits(120, 30), true, None, None),
    Policy("api_keys", ["/api/v1/api-keys"], NoPattern, POST, Limits(10, 3), true, Some(Limits(20, 5)), None),
    Policy("sessions_create", ["/api/v1/sessions"], NoPattern, POST, Limits(30, 5), true, Some(Limits(100, 20)), None),
    Policy("voice_ws", ["/api/v1/ws/voice"], NoPattern, None, Limits(20, 5), true, Some(Limits(60, 15)), None),
    Policy("livekit", ["/api/v1/livekit"], NoPattern, POST, Limits(30, 5), true,
           Some(Limits(80, 15)), Some(Limits(20, 5))),
    Policy("knowledge_upload", [], OneSegment("/api/v1/knowledge/collections/", "/documents"), POST,
           Limits(10, 2), true, Some(Limits(30, 5)), None),
    Policy("knowledge_reindex", [], OneSegment("/api/v1/knowledge/documents/", "/reindex"), POST,
           Limits(5, 2), true, Some(Limits(20, 5)), None),
    Policy("knowledge_search", ["/api/v1/knowledge/search"], NoPattern, POST,
           Limits(60, 15), false, Some(Limits(200, 40)), None),
    Policy("knowledge_collections", ["/api/v1/knowledge/collections"], NoPattern, POST,
           Limits(20, 5), true, Some(Limits(50, 10)), None),
    Policy("memory_search", [], OneSegment("/api/v1/sessions/", "/memory/search"), POST,
           Limits(60, 15), false, Some(Limits(200, 40)), None),
    Policy("replay", [], OneSegment("/api/v1/sessions/", "/replay"), GET,
           Limits(30, 10), true, Some(Limits(100, 25)), Some(Limits(15, 5))),
    Policy("onboarding_sample", ["/api/v1/onboarding/run-sample-call"], NoPattern, POST,
           Limits(5, 2), true, Some(Limits(15, 3)), None),
    Policy("onboarding", ["/api/v1/onboarding"], NoPattern, None, Limits(30, 8), true, Some(Limits(60, 15)), None),
    Policy("dashboard", ["/api/v1/dashboard"], NoPattern, GET, Limits(120, 30), false, Some(Limits(300, 60)), None),
    Policy("sessions", ["/api/v1/sessions"], NoPattern, None,
           Limits(120, 30), false, Some(Limits(300, 60)), Some(Limits(60, 15))),
    Policy("api_default", ["/api/v1/"], NoPattern, None, Limits(120, 30), false, Some(Limits(500, 100)), None)]

  const EXEMPT_PATHS: set<string> := {
    "/api/v1/health", "/api/v1/ready", "/api/v1/metrics",
    "/api/v1/docs", "/api/v1/redoc", "/api/v1/openapi.json"}

  /** The body up to the regular expression's `$`, which also matches before a final newline. */
  predicate WholeSegment(prefix: string, suffix: string, body: string) {
    && |prefix| + |suffix| < |body|
    && prefix <= body
    && body[|body| - |suffix|..] == suffix
    && '/' !in body[|prefix|..|body| - |suffix|]
  }

  predicate PatternMatches(p: PathPattern, path: string) {
    p.OneSegment? &&
    (|| WholeSegment(p.prefix, p.suffix, path)
     || (path != [] && path[|path| - 1] == '\n' && WholeSegment(p.prefix, p.suffix, path[..|path| - 1])))
  }

  /** `verb` is already upper case. */
  predicate Matches(p: Policy, verb: string, path: string) {
    && (p.methods.Some? ==> verb in p.methods.value)
    && (PatternMatches(p.pattern, path) || exists prefix | prefix in p.prefixes :: prefix <= path)
  }

  /** Position of the first policy, at or after `i`, that matches. */
  function FirstMatch(verb: string, path: string, i: nat): (r: Option<nat>)
    requires i <= |POLICIES|
    ensures r.Some? ==> i <= r.value < |POLICIES| && Matches(POLICIES[r.value], verb, path)
    ensures forall j :: i <= j < (if r.Some? then r.value else |POLICIES|) ==> !Matches(POLICIES[j], verb, path)
    decreases |POLICIES| - i
  {
    if i == |POLICIES| then None
    else if Matches(POLICIES[i], verb, path) then Some(i)
    else FirstMatch(verb, path, i + 1)
  }

  function ResolvePolicy(verb: string, path: string): Option<nat> {
    if path in EXEMPT_PATHS || !("/api/v1" <= path) then None else FirstMatch(verb, path, 0)
  }

  /** One path segment that is not empty, between the prefix and the suffix, and at most a newline
      after that. */
  ghost predicate IsSegmentPath(prefix: string, suffix: string, path: string) {
    exists segment: string, end: string {:trigger prefix + segment + suffix + end} ::
      segment != "" && '/' !in segment && (end == "" || end == "\n") && path == prefix + segment + suffix + end
  }

  lemma SegmentIn(prefix: string, suffix: string, body: string)
    requires WholeSegment(prefix, suffix, body)
    ensures var segment := body[|prefix|..|body| - |suffix|];
            segment != "" && '/' !in segment && body == prefix + segment + suffix
  {
  }

  lemma SegmentFrom(prefix: string, segment: string, suffix: string)
    requires segment != "" && '/' !in segment
    ensures WholeSegment(prefix, suffix, prefix + segment + suffix)
  {
    var body := prefix + segment + suffix;
    assert body[..|prefix|] == prefix;
    assert body[|prefix|..|body| - |suffix|] == segment;
    assert body[|body| - |suffix|..] == suffix;
  }

  lemma PatternExactlyWhen(prefix: string, suffix: string, path: string)
    ensures PatternMatches(OneSegment(prefix, suffix), path) <==> IsSegmentPath(prefix, suffix, path)
  {
    if WholeSegment(prefix, suffix, path) {
      SegmentIn(prefix, suffix, path);
      var segment := path[|prefix|..|path| - |suffix|];
      assert path == prefix + segment + suffix + "";
    } else if PatternMatches(OneSegment(prefix, suffix), path) {
      var body := path[..|path| - 1];
      SegmentIn(prefix, suffix, body);
      var segment := body[|prefix|..|body| - |suffix|];
      assert path == prefix + segment + suffix + "\n";
    }
    forall segment: string, end: string {:trigger prefix + segment + suffix + end} |
      segment != "" && '/' !in segment && (end == "" || end == "\n") && path == prefix + segment + suffix + end
      ensures PatternMatches(OneSegment(prefix, suffix), path)
    {
      SegmentFrom(prefix, segment, suffix);
      if end == "" {
        assert path == prefix + segment + suffix;
      } else {
        assert path[..|path| - 1] == prefix + segment + suffix;
      }
    }
  }

  /** The entry lists the method, if it lists any, and its pattern or one of its prefixes fits the path. */
  ghost predicate Fits(p: Policy, verb: string, path: string) {
    && (p.methods == None || verb in p.methods.value)
    && (|| (p.pattern.OneSegment? && IsSegmentPath(p.pattern.prefix, p.pattern.suffix, path))
        || exists rest: string, k {:trigger p.prefixes[k] + rest} :: 0 <= k < |p.prefixes| && path == p.prefixes[k] + rest)
  }

  lemma PrefixFits(prefixes: seq<string>, path: string)
    ensures (exists prefix | prefix in prefixes :: prefix <= path) <==>
            exists rest: string, k {:trigger prefixes[k] + rest} :: 0 <= k < |prefixes| && path == prefixes[k] + rest
  {
    if exists prefix | prefix in prefixes :: prefix <= path {
      var prefix :| prefix in prefixes && prefix <= path;
      var k :| 0 <= k < |prefixes| && prefixes[k] == prefix;
      assert path == prefixes[k] + path[|prefix|..];
    }
    forall rest: string, k {:trigger prefixes[k] + rest} | 0 <= k < |prefixes| && path == prefixes[k] + rest
      ensures exists prefix | prefix in prefixes :: prefix <= path
    {
      assert prefixes[k] in prefixes && prefixes[k] <= path;
    }
  }

  lemma FitsExactlyWhen(p: Policy, verb: string, path: string)
    ensures Fits(p, verb, path) <==> Matches(p, verb, path)
  {
    PrefixFits(p.prefixes, path);
    if p.pattern.OneSegment? {
      PatternExactlyWhen(p.pattern.prefix, p.pattern.suffix, path);
    }
  }

  lemma FirstMatchIsFirst(verb: string, path: string, i: nat)
    ensures FirstMatch(verb, path, 0) == Some(i) <==>
            i < |POLICIES| && Matches(POLICIES[i], verb, path) && forall j :: 0 <= j < i ==> !Matches(POLICIES[j], verb, path)
  {
  }

  lemma FirstFit(table: seq<Policy>, verb: string, path: string, i: nat)
    requires i < |table|
    ensures Matches(table[i], verb, path) && (forall j :: 0 <= j < i ==> !Matches(table[j], verb, path)) <==>
            Fits(table[i], verb, path) && forall j :: 0 <= j < i ==> !Fits(table[j], verb, path)
  {
    forall j | 0 <= j <= i ensures Fits(table[j], verb, path) <==> Matches(table[j], verb, path) {
      FitsExactlyWhen(table[j], verb, path);
    }
  }

  /** The six paths that no limit applies to, and the paths outside the API. */
  predicate Unlimited(path: string) {
    || path == "/api/v1/health" || path == "/api/v1/ready" || path == "/api/v1/metrics"
    || path == "/api/v1/docs" || path == "/api/v1/redoc" || path == "/api/v1/openapi.json"
    || !("/api/v1" <= path)
  }

  lemma NoPolicyWhenUnlimited(verb: string, path: string)
    ensures ResolvePolicy(verb, path) == if Unlimited(path) then None else FirstMatch(verb, path, 0)
  {
  }

  /** A request goes to the first entry that lists its method, if it lists any, and whose pattern or
      one of whose prefixes fits its path; the six exempt paths and paths outside the API go to none. */
  lemma ResolvesExactlyWhen(verb: string, path: string, i: nat)
    ensures ResolvePolicy(verb, path) == Some(i) <==>
            && !Unlimited(path) && i < |POLICIES| && Fits(POLICIES[i], verb, path)
            && forall j :: 0 <= j < i ==> !Fits(POLICIES[j], verb, path)
  {
    NoPolicyWhenUnlimited(verb, path);
    FirstMatchIsFirst(verb, path, i);
    if i < |POLICIES| {
      FirstFit(POLICIES, verb, path, i);
    }
  }

  const SESSIONS_CREATE: nat := 4
  const MEMORY_SEARCH: nat := 11

  /** The memory search policy is dead: no request resolves to it, because the broader
      session-creation prefix stands earlier in the table. */
  lemma MemorySearchIsShadowed(verb: string, path: string)
    ensures POLICIES[MEMORY_SEARCH].category == "memory_search"
    ensures POLICIES[SESSIONS_CREATE].category == "sessions_create"
    ensures Matches(POLICIES[MEMORY_SEARCH], verb, path) ==> ResolvePolicy(verb, path) == Some(SESSIONS_CREATE)
    ensures ResolvePolicy(verb, path) != Some(MEMORY_SEARCH)
  {
    var shadow := POLICIES[SESSIONS_CREATE];
    if Matches(POLICIES[MEMORY_SEARCH], verb, path) {
      var start := "/api/v1/sessions/";
      assert start <= path;
      assert shadow.prefixes == ["/api/v1/sessions"];
      assert "/api/v1/sessions" <= start;
      assert "/api/v1/sessions" in shadow.prefixes && "/api/v1/sessions" <= path;
      assert Matches(shadow, verb, path);
      assert path[8] == 's' && path[9] == 'e' && path[16] == '/';
      EarlierPoliciesMiss(verb, path);
      assert path !in EXEMPT_PATHS;
    }
  }

  /** Nothing before the session-creation policy matches a session path. */
  lemma EarlierPoliciesMiss(verb: string, path: string)
    requires |path| > 9 && path[8] == 's' && path[9] == 'e'
    ensures forall j :: 0 <= j < SESSIONS_CREATE ==> !Matches(POLICIES[j], verb, path)
  {
    assert "/api/v1/auth/login"[8] == 'a' && "/api/v1/auth/register"[8] == 'a' && "/api/v1/auth/refresh"[8] == 'a';
    assert "/api/v1/auth"[8] == 'a' && "/api/v1/demo"[8] == 'd' && "/api/v1/api-keys"[8] == 'a';
  }

  /** First table entry with the given category. */
  function PolicyOf(category: string, i: nat := 0): (r: Option<Policy>)
    requires i <= |POLICIES|
    ensures r.Some? ==> r.value in POLICIES && r.value.category == category
    ensures r.None? ==> forall j :: i <= j < |POLICIES| ==> POLICIES[j].category != category
    decreases |POLICIES| - i
  {
    if i == |POLICIES| then None
    else if POLICIES[i].category == category then Some(POLICIES[i])
    else PolicyOf(category, i + 1)
  }

  /** `a or b` on optional integers: zero counts as missing. */
  function Or(a: int, b: int): int {
    if a != 0 then a else b
  }

  /** The raw limits of a check, or none when the dimension is not limited by the policy. */
  function LimitsFor(p: Policy, d: Dimension): Option<Limits> {
    match d
    case Ip => Some(p.limits)
    case Org => if p.org.None? then None else Some(Limits(p.org.value.sustained, Or(p.org.value.burst, p.limits.burst)))
    case Session =>
      if p.session.None? then None
      else Some(Limits(p.session.value.sustained, Or(p.session.value.burst, p.limits.burst)))
    case _ =>
      if p.org.None? then Some(p.limits)
      else Some(Limits(Or(p.org.value.sustained, p.limits.sustained), Or(p.org.value.burst, p.limits.burst)))
  }

  /** `max(1, int(value * multiplier))`, where `int` drops the fraction. */
  function Scaled(value: int, multiplier: real): (r: int)
    ensures r >= 1
    ensures multiplier >= 0.0 && value >= 0 ==>
              r as real <= value as real * multiplier < r as real + 1.0 || (r == 1 && value as real * multiplier < 1.0)
    ensures value as real * multiplier < 1.0 ==> r == 1
  {
    var x := value as real * multiplier;
    var whole := if x >= 0.0 then x.Floor else -((-x).Floor);
    if whole > 1 then whole else 1
  }
}
