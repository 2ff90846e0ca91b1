/** Redis key construction, and why two different buckets never share a key. */
module RateLimitKeys {
  import opened Text
  import opened RateLimitPolicy

  datatype Window = Burst | Sustained
  datatype Target = Target(dimension: Dimension, identifier: string, category: string)

  function WindowName(w: Window): string {
    match w case Burst => "burst" case Sustained => "sustained"
  }

  function DimensionName(d: Dimension): string {
    match d
    case Ip => "ip" case User => "user" case Org => "org" case ApiKey => "api_key" case Session => "session"
  }

  function BucketKey(w: Window, t: Target, bucket: nat): string {
    "ratelimit:" + WindowName(w) + ":" + DimensionName(t.dimension) + ":" + t.identifier + ":" + t.category + ":"
    + Decimal(bucket)
  }

  predicate ColonFree(s: string) {
    forall i :: 0 <= i < |s| ==> s[i] != ':'
  }

  /** Every category of the table is free of colons. */
  lemma CategoriesAreColonFree(category: string)
    requires PolicyOf(category).Some?
    ensures ColonFree(category)
  {
    var i :| 0 <= i < |POLICIES| && POLICIES[i].category == category;
    if i < 6 {
      FirstCategories(i);
    } else if i < 9 {
      SecondCategories(i);
    } else if i < 12 {
      ThirdCategories(i);
    } else {
      LastCategories(i);
    }
  }

  lemma FirstCategories(i: nat)
    requires i < 6
    ensures ColonFree(POLICIES[i].category)
  {
    assert ColonFree("auth_login") && ColonFree("auth") && ColonFree("demo");
    assert ColonFree("api_keys") && ColonFree("sessions_create") && ColonFree("voice_ws");
  }

  lemma SecondCategories(i: nat)
    requires 6 <= i < 9
    ensures ColonFree(POLICIES[i].category)
  {
    assert ColonFree("livekit") && ColonFree("knowledge_upload") && ColonFree("knowledge_reindex");
  }

  lemma ThirdCategories(i: nat)
    requires 9 <= i < 12
    ensures ColonFree(POLICIES[i].category)
  {
    assert ColonFree("knowledge_search") && ColonFree("knowledge_collections") && ColonFree("memory_search");
  }

  lemma LastCategories(i: nat)
    requires 12 <= i < |POLICIES|
    ensures ColonFree(POLICIES[i].category)
  {
    assert ColonFree("replay") && ColonFree("onboarding_sample") && ColonFree("onboarding");
    assert ColonFree("dashboard") && ColonFree("sessions") && ColonFree("api_default");
  }

  /** A colon-free field in front of a colon can be read back, whatever follows. */
  lemma HeadField(a: string, x: string, b: string, y: string)
    requires ColonFree(a) && ColonFree(b)
    requires a + ":" + x == b + ":" + y
    ensures a == b && x == y
  {
    var s, t := a + ":" + x, b + ":" + y;
    assert s[|a|] == ':' && t[|b|] == ':';
    assert |a| == |b|;
    assert a == s[..|a|] && b == t[..|b|];
    assert x == s[|a| + 1..] && y == t[|b| + 1..];
  }

  /** A colon-free field behind a colon can be read back, whatever precedes. */
  lemma TailField(x: string, a: string, y: string, b: string)
    requires ColonFree(a) && ColonFree(b)
    requires x + ":" + a == y + ":" + b
    ensures a == b && x == y
  {
    var s, t := x + ":" + a, y + ":" + b;
    assert s[|x|] == ':' && t[|y|] == ':';
    assert |x| == |y|;
    assert x == s[..|x|] && y == t[..|y|];
    assert a == s[|x| + 1..] && b == t[|y| + 1..];
  }

  lemma NamesAreColonFreeAndDistinct(w: Window, v: Window, d: Dimension, e: Dimension)
    ensures ColonFree(WindowName(w)) && ColonFree(DimensionName(d))
    ensures WindowName(w) == WindowName(v) ==> w == v
    ensures DimensionName(d) == DimensionName(e) ==> d == e
  {
    assert |WindowName(w)| == |WindowName(v)| ==> w == v;
    assert d != e && |DimensionName(d)| == |DimensionName(e)| ==> DimensionName(d)[0] != DimensionName(e)[0];
  }

  /** Reads the five variable fields of a key back from its text. */
  lemma FieldsOf(p: string, w: string, d: string, i: string, c: string, n: string,
                 v: string, e: string, j: string, k: string, m: string)
    requires ColonFree(w) && ColonFree(d) && ColonFree(c) && ColonFree(n)
    requires ColonFree(v) && ColonFree(e) && ColonFree(k) && ColonFree(m)
    requires p + w + ":" + d + ":" + i + ":" + c + ":" + n == p + v + ":" + e + ":" + j + ":" + k + ":" + m
    ensures w == v && d == e && i == j && c == k && n == m
  {
    var left, right := i + ":" + c + ":" + n, j + ":" + k + ":" + m;
    var s, t := w + ":" + (d + ":" + left), v + ":" + (e + ":" + right);
    assert p + w + ":" + d + ":" + i + ":" + c + ":" + n == p + s;
    assert p + v + ":" + e + ":" + j + ":" + k + ":" + m == p + t;
    assert (p + s)[|p|..] == s && (p + t)[|p|..] == t;
    HeadField(w, d + ":" + left, v, e + ":" + right);
    HeadField(d, left, e, right);
    TailField(i + ":" + c, n, j + ":" + k, m);
    TailField(i, c, j, k);
  }

  /** Keys are injective over arbitrary identifiers, including ones that contain colons. */
  lemma KeysAreInjective(w: Window, t: Target, n: nat, v: Window, u: Target, m: nat)
    requires ColonFree(t.category) && ColonFree(u.category)
    requires BucketKey(w, t, n) == BucketKey(v, u, m)
    ensures w == v && t == u && n == m
  {
    NamesAreColonFreeAndDistinct(w, v, t.dimension, u.dimension);
    NamesAreColonFreeAndDistinct(v, w, u.dimension, t.dimension);
    FieldsOf("ratelimit:", WindowName(w), DimensionName(t.dimension), t.identifier, t.category, Decimal(n),
             WindowName(v), DimensionName(u.dimension), u.identifier, u.category, Decimal(m));
    DecimalRoundTrip(n);
    DecimalRoundTrip(m);
  }
}
