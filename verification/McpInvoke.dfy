/** What invoking a tool answers after any run of the registry, read off the calls alone, and what
    the list of servers and their identifiers are. */
module McpInvoke {
  import opened Text
  import opened McpRegistry

  // ---------------------------------------------------------------------------------------
  // Statuses

  /** The call reports this status for the server. */
  ghost predicate Reports(s: State, call: Call, id: string, status: Status) {
    || (call.Register? && TagOf(call.config, |s.servers|) == id && call.status == status)
    || (call.Discovered? && call.id == id && call.status == status)
    || (call == DiscoveryFailed(id) && status == Offline)
  }

  /** Unregistering the name of the support server, while that is listed, forgets no other server. */
  ghost predicate Forgets(s: State, call: Call, id: string) {
    call == Unregister(id) && !(s.supportUp && id == SUPPORT)
  }

  ghost predicate Touches(s: State, call: Call, id: string) {
    Forgets(s, call, id) || exists status :: Reports(s, call, id, status)
  }

  /** Call `p` reports the status, and no later call reports any status of the server or forgets it. */
  ghost predicate ReportsLastAt(s: State, calls: seq<Call>, p: int, id: string, status: Status) {
    && 0 <= p < |calls| && Reports(ApplyAll(s, calls[..p]), calls[p], id, status)
    && forall q :: p < q < |calls| ==> !Touches(ApplyAll(s, calls[..q]), calls[q], id)
  }

  ghost predicate LastReport(s: State, calls: seq<Call>, id: string, status: Status) {
    exists p :: ReportsLastAt(s, calls, p, id, status)
  }

  lemma RecordAfter(s: State, call: Call, id: string, status: Status)
    ensures var t := Apply(s, call);
            id in t.records && t.records[id] == status <==>
            Reports(s, call, id, status) || (!Touches(s, call, id) && id in s.records && s.records[id] == status)
  {
    if call.Register? {
      assert Reports(s, call, TagOf(call.config, |s.servers|), call.status);
    } else if call.Discovered? {
      assert Reports(s, call, call.id, call.status);
    } else if call.DiscoveryFailed? {
      assert Reports(s, call, call.id, Offline);
    }
  }

  lemma LastReportOfMore(s: State, front: seq<Call>, call: Call, id: string, status: Status)
    ensures var t := ApplyAll(s, front);
            LastReport(s, front + [call], id, status) <==>
            Reports(t, call, id, status) || (!Touches(t, call, id) && LastReport(s, front, id, status))
  {
    var calls, t, n := front + [call], ApplyAll(s, front), |front|;
    assert calls[..n] == front && calls[n] == call;
    assert forall q :: 0 <= q < n ==> calls[..q] == front[..q] && calls[q] == front[q];
    if Reports(t, call, id, status) {
      assert ReportsLastAt(s, calls, n, id, status);
    } else if !Touches(t, call, id) && LastReport(s, front, id, status) {
      var p :| ReportsLastAt(s, front, p, id, status);
      assert ReportsLastAt(s, calls, p, id, status);
    }
    if LastReport(s, calls, id, status) {
      var p :| ReportsLastAt(s, calls, p, id, status);
      if p < n {
        assert !Touches(ApplyAll(s, calls[..n]), calls[n], id);
        assert ReportsLastAt(s, front, p, id, status);
      }
    }
  }

  /** After any run a server's record has the status that was reported last, and there is none when
      none was reported since the server was last unregistered. */
  lemma {:induction false} StatusIsLastReport(s: State, calls: seq<Call>, id: string, status: Status)
    requires s.records == map[]
    ensures var t := ApplyAll(s, calls);
            id in t.records && t.records[id] == status <==> LastReport(s, calls, id, status)
  {
    if calls != [] {
      var front, call := calls[..|calls| - 1], calls[|calls| - 1];
      StatusIsLastReport(s, front, id, status);
      RecordAfter(ApplyAll(s, front), call, id, status);
      LastReportOfMore(s, front, call, id, status);
      assert calls == front + [call];
    }
  }

  // ---------------------------------------------------------------------------------------
  // The list of servers

  lemma {:induction false} OthersOfSum(a: seq<Config>, b: seq<Config>, id: string)
    ensures Others(a + b, id) == Others(a, id) + Others(b, id)
  {
    if b == [] {
      assert a + b == a;
    } else {
      var front, last := b[..|b| - 1], b[|b| - 1];
      OthersOfSum(a, front, id);
      assert (a + b)[..|a + b| - 1] == a + front;
      Assoc(Others(a, id), Others(front, id), if last.tag == Some(id) then [] else [last]);
    }
  }

  /** Filtering out a tag removes each configuration that has it, and keeps the order of the rest. */
  lemma OthersFilters(a: seq<Config>, b: seq<Config>, c: Config, id: string)
    ensures Others([], id) == []
    ensures Others([c], id) == if c.tag == Some(id) then [] else [c]
    ensures Others(a + b, id) == Others(a, id) + Others(b, id)
  {
    OthersOfSum(a, b, id);
    assert [c][..0] == [];
  }

  lemma {:induction false} InOthers(servers: seq<Config>, id: string, c: Config)
    ensures c in Others(servers, id) <==> c in servers && c.tag != Some(id)
  {
    if servers != [] {
      var n := |servers| - 1;
      InOthers(servers[..n], id, c);
      assert servers == servers[..n] + [servers[n]];
    }
  }

  /** The call stores this configuration, under its identifier. */
  ghost predicate Stores(s: State, call: Call, c: Config) {
    call.Register? && c == call.config.(tag := Some(TagOf(call.config, |s.servers|)))
  }

  ghost predicate Drops(s: State, call: Call, c: Config) {
    c.tag.Some? && Forgets(s, call, c.tag.value)
  }

  /** Listed at the start (`p` is -1) or stored by call `p`, and not dropped since. */
  ghost predicate StoredAt(s: State, calls: seq<Call>, p: int, c: Config) {
    && -1 <= p < |calls| && (if p == -1 then c in s.servers else Stores(ApplyAll(s, calls[..p]), calls[p], c))
    && forall q :: p < q < |calls| ==> !Drops(ApplyAll(s, calls[..q]), calls[q], c)
  }

  ghost predicate Kept(s: State, calls: seq<Call>, c: Config) {
    exists p :: StoredAt(s, calls, p, c)
  }

  /** A new configuration goes to the end of the list, one that is listed already leaves it as it is,
      and an unregistration keeps the order of what it leaves; no other call changes the list. */
  lemma ListAfter(s: State, call: Call, c: Config)
    ensures var t := Apply(s, call);
            && (c in t.servers <==> Stores(s, call, c) || (c in s.servers && !Drops(s, call, c)))
            && (Stores(s, call, c) ==> t.servers == if c in s.servers then s.servers else s.servers + [c])
            && (c.tag.Some? && Forgets(s, call, c.tag.value) ==> t.servers == Others(s.servers, c.tag.value))
            && (!call.Register? && !(exists id :: Forgets(s, call, id)) ==> t.servers == s.servers)
  {
    if call.Unregister? {
      InOthers(s.servers, call.id, c);
      assert !(s.supportUp && call.id == SUPPORT) ==> Forgets(s, call, call.id);
    }
  }

  lemma KeptOfMore(s: State, front: seq<Call>, call: Call, c: Config)
    ensures var t := ApplyAll(s, front);
            Kept(s, front + [call], c) <==> Stores(t, call, c) || (Kept(s, front, c) && !Drops(t, call, c))
  {
    var calls, t, n := front + [call], ApplyAll(s, front), |front|;
    assert calls[..n] == front && calls[n] == call;
    assert forall q :: 0 <= q < n ==> calls[..q] == front[..q] && calls[q] == front[q];
    if Stores(t, call, c) {
      assert StoredAt(s, calls, n, c);
    } else if Kept(s, front, c) && !Drops(t, call, c) {
      var p :| StoredAt(s, front, p, c);
      assert StoredAt(s, calls, p, c);
    }
    if Kept(s, calls, c) {
      var p :| StoredAt(s, calls, p, c);
      if p < n {
        assert !Drops(ApplyAll(s, calls[..n]), calls[n], c);
        assert StoredAt(s, front, p, c);
      }
    }
  }

  lemma ListedAfter(s: State, front: seq<Call>, call: Call, c: Config)
    requires c in ApplyAll(s, front).servers <==> Kept(s, front, c)
    ensures c in Apply(ApplyAll(s, front), call).servers <==> Kept(s, front + [call], c)
  {
    ListAfter(ApplyAll(s, front), call, c);
    KeptOfMore(s, front, call, c);
  }

  /** After any run the list holds exactly the configurations that were there or were registered, and
      whose identifier was not unregistered since. */
  lemma {:induction false} ListedExactlyWhen(s: State, calls: seq<Call>, c: Config)
    ensures c in ApplyAll(s, calls).servers <==> Kept(s, calls, c)
  {
    if calls == [] {
      assert c in s.servers <==> StoredAt(s, calls, -1, c);
    } else {
      var front, call := calls[..|calls| - 1], calls[|calls| - 1];
      ListedExactlyWhen(s, front, c);
      ListedAfter(s, front, call, c);
      assert calls == front + [call];
    }
  }

  ghost predicate Distinct(servers: seq<Config>) {
    forall i, k :: 0 <= i < k < |servers| ==> servers[i] != servers[k]
  }

  lemma {:induction false} OthersDistinct(servers: seq<Config>, id: string)
    requires Distinct(servers)
    ensures Distinct(Others(servers, id))
  {
    if servers != [] {
      var n := |servers| - 1;
      OthersDistinct(servers[..n], id);
      InOthers(servers[..n], id, servers[n]);
    }
  }

  /** Registering never lists a configuration twice. */
  lemma {:induction false} NothingListedTwice(s: State, calls: seq<Call>)
    requires Distinct(s.servers)
    ensures Distinct(ApplyAll(s, calls).servers)
  {
    if calls != [] {
      var front, call := calls[..|calls| - 1], calls[|calls| - 1];
      NothingListedTwice(s, front);
      if call.Unregister? {
        OthersDistinct(ApplyAll(s, front).servers, call.id);
      }
    }
  }

  // ---------------------------------------------------------------------------------------
  // The support server

  ghost predicate SupportOnAt(calls: seq<Call>, p: int) {
    0 <= p < |calls| && calls[p] == RegisterSupport && forall q :: p < q < |calls| ==> calls[q] != Unregister(SUPPORT)
  }

  ghost predicate SupportOn(calls: seq<Call>) { exists p :: SupportOnAt(calls, p) }

  lemma SupportOnMore(front: seq<Call>, call: Call)
    ensures SupportOn(front + [call]) <==> call == RegisterSupport || (SupportOn(front) && call != Unregister(SUPPORT))
  {
    var calls, n := front + [call], |front|;
    assert calls[n] == call && forall q :: 0 <= q < n ==> calls[q] == front[q];
    if call == RegisterSupport {
      assert SupportOnAt(calls, n);
    } else if SupportOn(front) && call != Unregister(SUPPORT) {
      var p :| SupportOnAt(front, p);
      assert SupportOnAt(calls, p);
    }
    if SupportOn(calls) && call != RegisterSupport {
      var p :| SupportOnAt(calls, p);
      assert SupportOnAt(front, p);
    }
  }

  /** The in-process support server is listed exactly when its name was not unregistered since it was
      last registered. */
  lemma {:induction false} SupportListedExactlyWhen(s: State, calls: seq<Call>)
    requires !s.supportUp
    ensures ApplyAll(s, calls).supportUp <==> SupportOn(calls)
  {
    if calls != [] {
      var front, call := calls[..|calls| - 1], calls[|calls| - 1];
      SupportListedExactlyWhen(s, front);
      SupportOnMore(front, call);
      assert calls == front + [call];
    }
  }

  // ---------------------------------------------------------------------------------------
  // Invoking a tool

  /** Position of the first configuration with this tag. */
  predicate FirstTagged(servers: seq<Config>, id: string, i: int) {
    0 <= i < |servers| && servers[i].tag == Some(id) && forall k :: 0 <= k < i ==> servers[k].tag != Some(id)
  }

  lemma {:induction false} FindsFirst(servers: seq<Config>, id: string, from: nat, i: int)
    requires from <= |servers| && FirstTagged(servers, id, i) && from <= i
    ensures FindServer(servers, id, from) == Some(servers[i])
    decreases |servers| - from
  {
    if from < i {
      FindsFirst(servers, id, from + 1, i);
    }
  }

  /** An owned tool, in one state. */
  lemma InvokeOwned(s: State, name: string)
    requires name in s.owner
    ensures var id := s.owner[name];
            && (Invoke(s, name) == ServerNotFound <==> forall i :: !FirstTagged(s.servers, id, i))
            && (forall i :: FirstTagged(s.servers, id, i) ==>
                  Invoke(s, name) == if id in s.records && s.records[id] == Offline then ServerOffline else Forwarded(s.servers[i]))
  {
    var id := s.owner[name];
    forall i | FirstTagged(s.servers, id, i) ensures FindServer(s.servers, id, 0) == Some(s.servers[i]) {
      FindsFirst(s.servers, id, 0, i);
    }
    if FindServer(s.servers, id, 0).Some? {
      var i := FirstPosition(s.servers, id);
    }
  }

  /** Exactly the names that the log gives to no server are unknown. */
  lemma UnknownExactlyWhen(s: State, calls: seq<Call>, name: string)
    requires Empty(s)
    ensures Invoke(ApplyAll(s, calls), name) == ToolNotFound <==>
            forall tool, id :: !LogSays(Log(s, calls), name, tool, id)
  {
    IndexAgreesWithLog(s, calls, name);
    var t := ApplyAll(s, calls);
    if name in t.owner {
      var tool, id := t.tools[name], t.owner[name];
      assert LogSays(Log(s, calls), name, tool, id);
      assert Invoke(t, name) != ToolNotFound;
      assert exists tool, id :: LogSays(Log(s, calls), name, tool, id);
    }
  }

  /** After any run an invocation is answered from the calls and the list alone: a server that is not
      configured is missing; one whose last report was offline is offline; otherwise the first
      configuration of the server gets the call. */
  lemma InvokeAnswers(s: State, calls: seq<Call>, name: string, tool: Tool, id: string)
    requires Empty(s) && s.records == map[] && LogSays(Log(s, calls), name, tool, id)
    ensures var t := ApplyAll(s, calls);
            && (Invoke(t, name) == ServerNotFound <==> forall i :: !FirstTagged(t.servers, id, i))
            && (forall i :: FirstTagged(t.servers, id, i) ==>
                  Invoke(t, name) == if LastReport(s, calls, id, Offline) then ServerOffline else Forwarded(t.servers[i]))
  {
    var t, log := ApplyAll(s, calls), Log(s, calls);
    IndexAgreesWithLog(s, calls, name);
    AnswerIsUnique(log, name, tool, id, t.tools[name], t.owner[name]);
    StatusIsLastReport(s, calls, id, Offline);
    InvokeOwned(t, name);
  }

  lemma {:induction false} FirstPosition(servers: seq<Config>, id: string) returns (i: nat)
    requires exists k :: 0 <= k < |servers| && servers[k].tag == Some(id)
    ensures FirstTagged(servers, id, i)
  {
    i := 0;
    while servers[i].tag != Some(id)
      invariant i < |servers| && forall k :: 0 <= k < i ==> servers[k].tag != Some(id)
      decreases |servers| - i
    {
      i := i + 1;
    }
  }

  /** When every discovery that brings tools finds its server configured, an indexed tool is offline
      exactly when the last report of its owner said so, and otherwise the first configuration of its
      owner gets the call. */
  lemma InvokeExactlyWhen(s: State, calls: seq<Call>, name: string, tool: Tool, id: string)
    requires Empty(s) && s.records == map[] && AllCurrent(s, calls)
    requires LogSays(Log(s, calls), name, tool, id)
    ensures var t := ApplyAll(s, calls);
            && (Invoke(t, name) == ServerOffline <==> LastReport(s, calls, id, Offline))
            && (!LastReport(s, calls, id, Offline) ==>
                exists i :: FirstTagged(t.servers, id, i) && Invoke(t, name) == Forwarded(t.servers[i]))
  {
    var t := ApplyAll(s, calls);
    InvokeAnswers(s, calls, name, tool, id);
    InvokeFindsServer(s, calls, name);
    var i :| FirstTagged(t.servers, id, i);
    assert Invoke(t, name) == if LastReport(s, calls, id, Offline) then ServerOffline else Forwarded(t.servers[i]);
  }

  // ---------------------------------------------------------------------------------------
  // Identifiers

  /** Neither the identifier nor, when that is missing or empty, the name has more than whitespace. */
  predicate Nameless(c: Config) {
    if c.id.Some? && c.id.value != "" then Blank(c.id.value) else c.name.Some? ==> Blank(c.name.value)
  }

  /** A given tag wins; then the stripped identifier; then, without an identifier, the stripped name;
      a configuration with neither is named after its command and its position. */
  lemma TagCases(c: Config, index: nat)
    ensures c.tag.Some? && c.tag.value != "" ==> TagOf(c, index) == c.tag.value
    ensures c.tag == None || c.tag == Some("") ==> TagOf(c, index) == ServerIdFor(c, index)
    ensures c.id.Some? && !Blank(c.id.value) ==> ServerIdFor(c, index) == Strip(c.id.value)
    ensures (c.id == None || c.id == Some("")) && c.name.Some? && !Blank(c.name.value) ==>
              ServerIdFor(c, index) == Strip(c.name.value)
    ensures Nameless(c) && c.command.Some? ==> ServerIdFor(c, index) == c.command.value + "-" + Decimal(index)
    ensures Nameless(c) && c.command.None? ==> ServerIdFor(c, index) == "server-" + Decimal(index)
  {
    if Explicit(c).Some? {
      StripFacts(Explicit(c).value);
    }
    assert "server" + "-" == "server-";
  }

  /** The dash before the digits is the last one. */
  lemma NoDashAfter(a: string, x: nat, k: nat)
    ensures |a| < k < |a + "-" + Decimal(x)| ==> (a + "-" + Decimal(x))[k] != '-'
  {
    if |a| < k < |a + "-" + Decimal(x)| {
      assert (a + "-" + Decimal(x))[k] == Decimal(x)[k - |a| - 1];
    }
  }

  lemma SameParts(a: string, x: string, b: string, y: string)
    requires a + "-" + x == b + "-" + y && |a| == |b|
    ensures a == b && x == y
  {
    var s := a + "-" + x;
    assert a == s[..|a|] && b == s[..|b|];
    assert x == s[|a| + 1..] && y == s[|b| + 1..];
  }

  lemma SameDashedPrefix(a: string, x: nat, b: string, y: nat)
    requires a + "-" + Decimal(x) == b + "-" + Decimal(y)
    ensures a == b && x == y
  {
    var s := a + "-" + Decimal(x);
    assert s[|a|] == '-' && s[|b|] == '-';
    NoDashAfter(a, x, |b|);
    NoDashAfter(b, y, |a|);
    SameParts(a, Decimal(x), b, Decimal(y));
    DecimalRoundTrip(x);
    DecimalRoundTrip(y);
  }

  /** Configurations without identifier and name get different identifiers at different positions,
      whatever their commands. */
  lemma FallbackIdsDiffer(c: Config, i: nat, d: Config, k: nat)
    requires Nameless(c) && Nameless(d) && ServerIdFor(c, i) == ServerIdFor(d, k)
    ensures i == k
  {
    TagCases(c, i);
    TagCases(d, k);
    var a := if c.command.Some? then c.command.value else "server";
    var b := if d.command.Some? then d.command.value else "server";
    assert "server" + "-" == "server-";
    SameDashedPrefix(a, i, b, k);
  }
}
