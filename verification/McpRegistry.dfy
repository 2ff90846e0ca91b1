/** The runtime registry of MCP tools: an index that must agree with the log of what was
    registered, discovered and unregistered. */
module McpRegistry {
  import opened Text

  datatype Tool = Tool(name: string, description: string)
  datatype Status = Healthy | Degraded | Offline

  /** A server's configuration; `tag` is the `_server_id` entry. */
  datatype Config = Config(tag: Option<string>, id: Option<string>, name: Option<string>, command: Option<string>)

  const SUPPORT := "voxforge-support"

  function Explicit(c: Config): Option<string> {
    if c.id.Some? && c.id.value != "" then c.id else c.name
  }

  function ServerIdFor(c: Config, index: nat): string {
    if Explicit(c).Some? && Strip(Explicit(c).value) != "" then Strip(Explicit(c).value)
    else (if c.command.Some? then c.command.value else "server") + "-" + Decimal(index)
  }

  function TagOf(c: Config, index: nat): string {
    if c.tag.Some? && c.tag.value != "" then c.tag.value else ServerIdFor(c, index)
  }

  datatype State = State(
    servers: seq<Config>,
    records: map<string, Status>,
    tools: map<string, Tool>,
    owner: map<string, string>,
    supportUp: bool)           // the in-process support server is listed

  datatype Call =
    | Register(config: Config, tools: seq<Tool>, status: Status)
    | Discovered(id: string, tools: seq<Tool>, status: Status)   // a server's discovery completed
    | DiscoveryFailed(id: string)
    | Unregister(id: string)
    | RegisterSupport

  predicate Configured(s: State, id: string) {
    exists i :: 0 <= i < |s.servers| && s.servers[i].tag == Some(id)
  }

  function Indexed(m: map<string, Tool>, tools: seq<Tool>): map<string, Tool> {
    if tools == [] then m else Indexed(m, tools[..|tools| - 1])[tools[|tools| - 1].name := tools[|tools| - 1]]
  }

  function Owned(m: map<string, string>, tools: seq<Tool>, id: string): map<string, string> {
    if tools == [] then m else Owned(m, tools[..|tools| - 1], id)[tools[|tools| - 1].name := id]
  }

  function AddTools(s: State, id: string, tools: seq<Tool>, status: Status): State {
    s.(records := s.records[id := status], tools := Indexed(s.tools, tools), owner := Owned(s.owner, tools, id))
  }

  function Others(servers: seq<Config>, id: string): seq<Config> {
    if servers == [] then []
    else
      var c := servers[|servers| - 1];
      Others(servers[..|servers| - 1], id) + if c.tag == Some(id) then [] else [c]
  }

  function Apply(s: State, call: Call): State {
    match call
    case Register(c, tools, status) =>
      var id := TagOf(c, |s.servers|);
      var c' := c.(tag := Some(id));
      AddTools(s.(servers := if c' in s.servers then s.servers else s.servers + [c']), id, tools, status)
    case Discovered(id, tools, status) => AddTools(s, id, tools, status)
    case DiscoveryFailed(id) => s.(records := s.records[id := Offline])
    case Unregister(id) =>
      if s.supportUp && id == SUPPORT then s.(supportUp := false)
      else
        s.(servers := Others(s.servers, id), records := s.records - {id},
           tools := map n | n in s.tools && !(n in s.owner && s.owner[n] == id) :: s.tools[n],
           owner := map n | n in s.owner && s.owner[n] != id :: s.owner[n])
    case RegisterSupport => s.(supportUp := true)
  }

  function GetTool(s: State, name: string): Option<Tool> {
    if name in s.tools then Some(s.tools[name]) else None
  }

  datatype Invocation = ToolNotFound | ServerNotFound | ServerOffline | Forwarded(config: Config)

  /** First configuration with the given tag, at or after `i`. */
  function FindServer(servers: seq<Config>, id: string, i: nat): (r: Option<Config>)
    requires i <= |servers|
    ensures r.Some? ==> r.value in servers && r.value.tag == Some(id)
    ensures r.None? ==> forall k :: i <= k < |servers| ==> servers[k].tag != Some(id)
    decreases |servers| - i
  {
    if i == |servers| then None
    else if servers[i].tag == Some(id) then Some(servers[i])
    else FindServer(servers, id, i + 1)
  }

  function Invoke(s: State, name: string): Invocation {
    if name !in s.owner then ToolNotFound
    else
      var server := FindServer(s.servers, s.owner[name], 0);
      if server.None? then ServerNotFound
      else if s.owner[name] in s.records && s.records[s.owner[name]].Offline? then ServerOffline
      else Forwarded(server.value)
  }

  class Registry {
    var servers: seq<Config>
    var records: map<string, Status>
    var tools: map<string, Tool>
    var owner: map<string, string>
    var supportUp: bool

    ghost function View(): State
      reads this
    {
      State(servers, records, tools, owner, supportUp)
    }

    /** Tags the configured servers in order. */
    constructor (configs: seq<Config>)
      ensures |servers| == |configs| && forall i :: 0 <= i < |configs| ==> servers[i] == configs[i].(tag := Some(ServerIdFor(configs[i], i)))
      ensures View() == State(servers, map[], map[], map[], false)
    {
      servers := seq(|configs|, i requires 0 <= i < |configs| => configs[i].(tag := Some(ServerIdFor(configs[i], i))));
      records, tools, owner, supportUp := map[], map[], map[], false;
    }

    method RegisterTools(id: string, added: seq<Tool>, status: Status)
      modifies this`records, this`tools, this`owner
      ensures View() == AddTools(old(View()), id, added, status)
    {
      records := records[id := status];
      for i := 0 to |added|
        invariant records == old(records)[id := status]
        invariant tools == Indexed(old(tools), added[..i]) && owner == Owned(old(owner), added[..i], id)
      {
        assert added[..i + 1][..i] == added[..i];
        tools := tools[added[i].name := added[i]];
        owner := owner[added[i].name := id];
      }
      assert added[..|added|] == added;
    }

    method RegisterServer(config: Config, added: seq<Tool>, status: Status)
      modifies this
      ensures View() == Apply(old(View()), Register(config, added, status))
    {
      var id := TagOf(config, |servers|);
      var tagged := config.(tag := Some(id));
      if tagged !in servers {
        servers := servers + [tagged];
      }
      RegisterTools(id, added, status);
    }

    /** Any one call, by name. */
    method Perform(call: Call)
      modifies this
      ensures View() == Apply(old(View()), call)
    {
      match call {
        case Register(config, added, status) => RegisterServer(config, added, status);
        case Discovered(id, added, status) => RegisterTools(id, added, status);
        case DiscoveryFailed(id) => records := records[id := Offline];
        case Unregister(id) => UnregisterServer(id);
        case RegisterSupport => supportUp := true;
      }
    }

    /** The calls that run while a discovery is awaited. A loop over `list` sees the servers they
        append, until an unregistration puts a new list in its place. */
    method RunOthers(others: seq<Call>, list: seq<Config>, shared: bool) returns (list': seq<Config>, shared': bool)
      requires Tagged(list) && Tagged(servers) && (shared ==> list == servers)
      modifies this
      ensures View() == ApplyAll(old(View()), others)
      ensures list <= list' && Tagged(list') && Tagged(servers) && (shared' ==> list' == servers)
    {
      list', shared' := list, shared;
      for k := 0 to |others|
        invariant list <= list' && Tagged(list') && Tagged(servers) && (shared' ==> list' == servers)
        invariant View() == ApplyAll(old(View()), others[..k])
      {
        assert others[..k + 1] == others[..k] + [others[k]];
        OneMoreCall(old(View()), others[..k], others[k]);
        ServersAfter(View(), others[k]);
        shared' := shared' && !Rebuilds(supportUp, others[k]);
        Perform(others[k]);
        list' := if shared' then servers else list';
      }
      assert others[..|others|] == others;
    }

    /** Awaits one server's discovery, and registers its result. */
    method Visit(id: string, round: Round, list: seq<Config>, shared: bool) returns (list': seq<Config>, shared': bool)
      requires Tagged(list) && Tagged(servers) && (shared ==> list == servers)
      modifies this
      ensures View() == Apply(ApplyAll(old(View()), round.others), ResultCall(id, round.result))
      ensures list <= list' && Tagged(list') && Tagged(servers) && (shared' ==> list' == servers)
    {
      list', shared' := RunOthers(round.others, list, shared);
      ServersAfter(View(), ResultCall(id, round.result));
      Perform(ResultCall(id, round.result));
    }

    /** One server at a time; a failed discovery marks the server offline and goes on. Other calls
        run while a discovery is awaited. When the rounds run out, the method is still waiting. */
    method DiscoverAll(enabled: bool, rounds: seq<Round>) returns (finished: bool, visited: seq<string>)
      requires Tagged(servers)
      modifies this
      ensures |visited| <= |rounds| && View() == ApplyAll(old(View()), Calls(rounds, visited))
      ensures !enabled ==> finished && visited == []
      ensures !finished ==> |visited| == |rounds|
      ensures enabled && finished ==> |visited| >= old(|servers|) && AreFirst(old(servers), visited[..old(|servers|)])
      ensures Tagged(servers)
    {
      visited := [];
      if !enabled {
        return true, [];
      }
      var list, shared := servers, true;
      while |visited| < |list| && |visited| < |rounds|
        invariant |visited| <= |rounds| && AreFirst(list, visited)
        invariant old(servers) <= list && Tagged(list) && Tagged(servers) && (shared ==> list == servers)
        invariant View() == ApplyAll(old(View()), Calls(rounds, visited))
        decreases |rounds| - |visited|
      {
        var round, id := rounds[|visited|], list[|visited|].tag.value;
        RoundsCalls(old(View()), rounds, visited, id);
        ghost var before := list;
        list, shared := Visit(id, round, list, shared);
        OneMoreFirst(before, list, visited, id);
        visited := visited + [id];
      }
      finished := |visited| == |list|;
    }

    method UnregisterServer(id: string)
      modifies this
      ensures View() == Apply(old(View()), Unregister(id))
    {
      if supportUp && id == SUPPORT {
        supportUp := false;
        return;
      }
      servers := Others(servers, id);
      records := records - {id};
      tools, owner := DropTools(tools, owner, id);
    }
  }

  /** Removes every tool that the server owns, name by name. */
  method DropTools(tools: map<string, Tool>, owner: map<string, string>, id: string)
    returns (keptTools: map<string, Tool>, keptOwner: map<string, string>)
    ensures keptTools == map n | n in tools && !(n in owner && owner[n] == id) :: tools[n]
    ensures keptOwner == map n | n in owner && owner[n] != id :: owner[n]
  {
    keptTools, keptOwner := tools, owner;
    var names := owner.Keys;
    while names != {}
      invariant names <= owner.Keys
      invariant forall n :: n in keptOwner <==> n in owner && (n in names || owner[n] != id)
      invariant forall n :: n in keptOwner ==> keptOwner[n] == owner[n]
      invariant forall n :: n in keptTools <==> n in tools && (n in names || !(n in owner && owner[n] == id))
      invariant forall n :: n in keptTools ==> keptTools[n] == tools[n]
      decreases names
    {
      var n :| n in names;
      names := names - {n};
      if owner[n] == id {
        keptTools := keptTools - {n};
        keptOwner := keptOwner - {n};
      }
    }
  }

  /** What happens while one server's discovery is awaited, and how it ends. */
  datatype Round = Round(others: seq<Call>, result: Option<(seq<Tool>, Status)>)

  predicate Tagged(servers: seq<Config>) { forall i :: 0 <= i < |servers| ==> servers[i].tag.Some? }

  /** These are the identifiers of the first servers of the list. */
  predicate AreFirst(list: seq<Config>, ids: seq<string>) {
    |ids| <= |list| && forall i :: 0 <= i < |ids| ==> list[i].tag == Some(ids[i])
  }

  lemma OneMoreFirst(list: seq<Config>, longer: seq<Config>, ids: seq<string>, id: string)
    requires AreFirst(list, ids) && |ids| < |list| && list[|ids|].tag == Some(id) && list <= longer
    ensures AreFirst(longer, ids + [id])
  {
  }

  function ResultCall(id: string, result: Option<(seq<Tool>, Status)>): Call {
    if result.Some? then Discovered(id, result.value.0, result.value.1) else DiscoveryFailed(id)
  }

  /** The calls of the rounds in which these servers were visited, in order. */
  function Calls(rounds: seq<Round>, visited: seq<string>): seq<Call>
    requires |visited| <= |rounds|
  {
    if visited == [] then []
    else
      var n := |visited| - 1;
      Calls(rounds, visited[..n]) + rounds[n].others + [ResultCall(visited[n], rounds[n].result)]
  }

  lemma OneMoreCall(s: State, calls: seq<Call>, call: Call)
    ensures ApplyAll(s, calls + [call]) == Apply(ApplyAll(s, calls), call)
  {
    assert (calls + [call])[..|calls|] == calls;
  }

  lemma {:induction false} ApplyInTwo(s: State, a: seq<Call>, b: seq<Call>)
    ensures ApplyAll(s, a + b) == ApplyAll(ApplyAll(s, a), b)
  {
    if b == [] {
      assert a + b == a;
    } else {
      var front, last := b[..|b| - 1], b[|b| - 1];
      ApplyInTwo(s, a, front);
      Assoc(a, front, [last]);
      assert front + [last] == b;
      OneMoreCall(s, a + front, last);
    }
  }

  /** One more server visited: first the other calls of its round, then its own result. */
  lemma RoundsCalls(s: State, rounds: seq<Round>, visited: seq<string>, id: string)
    requires |visited| < |rounds|
    ensures var round := rounds[|visited|];
            ApplyAll(s, Calls(rounds, visited + [id])) ==
            Apply(ApplyAll(ApplyAll(s, Calls(rounds, visited)), round.others), ResultCall(id, round.result))
  {
    var round := rounds[|visited|];
    assert (visited + [id])[..|visited|] == visited;
    OneMoreCall(s, Calls(rounds, visited) + round.others, ResultCall(id, round.result));
    ApplyInTwo(s, Calls(rounds, visited), round.others);
  }

  /** An unregistration puts a new list of servers in place of the old one. */
  predicate Rebuilds(supportUp: bool, call: Call) { call.Unregister? && !(supportUp && call.id == SUPPORT) }

  /** Every other call keeps the list, or appends to it. */
  lemma ServersAfter(s: State, call: Call)
    ensures !Rebuilds(s.supportUp, call) ==> s.servers <= Apply(s, call).servers
    ensures Tagged(s.servers) ==> Tagged(Apply(s, call).servers)
    ensures call.Discovered? || call.DiscoveryFailed? ==> Apply(s, call).servers == s.servers
  {
    if call.Unregister? {
      OthersAreServers(s.servers, call.id);
    }
  }

  lemma {:induction false} OthersAreServers(servers: seq<Config>, id: string)
    ensures Tagged(servers) ==> Tagged(Others(servers, id))
  {
    if servers != [] {
      OthersAreServers(servers[..|servers| - 1], id);
    }
  }

  function ApplyAll(s: State, calls: seq<Call>): State {
    if calls == [] then s else Apply(ApplyAll(s, calls[..|calls| - 1]), calls[|calls| - 1])
  }

  // ---------------------------------------------------------------------------------------
  // The log

  /** What a call means for the tools, as an outside observer would log it. */
  datatype Event = Added(id: string, tools: seq<Tool>) | Removed(id: string) | Nothing

  function EventOf(s: State, call: Call): Event {
    match call
    case Register(c, tools, _) => Added(TagOf(c, |s.servers|), tools)
    case Discovered(id, tools, _) => Added(id, tools)
    case Unregister(id) => if s.supportUp && id == SUPPORT then Nothing else Removed(id)
    case _ => Nothing
  }

  function Log(s: State, calls: seq<Call>): (log: seq<Event>)
    ensures |log| == |calls|
  {
    if calls == [] then []
    else
      var front := calls[..|calls| - 1];
      Log(s, front) + [EventOf(ApplyAll(s, front), calls[|calls| - 1])]
  }

  /** The last tool of that name in a list. */
  function LastNamed(tools: seq<Tool>, name: string): Option<Tool> {
    if tools == [] then None
    else if tools[|tools| - 1].name == name then Some(tools[|tools| - 1])
    else LastNamed(tools[..|tools| - 1], name)
  }

  predicate Mentions(e: Event, name: string) { e.Added? && LastNamed(e.tools, name).Some? }

  /** Event `p` is the last registration that contains the name, it has this tool and this
      owner, and the owner was not unregistered since. */
  ghost predicate SaysAt(log: seq<Event>, p: int, name: string, tool: Tool, id: string) {
    && 0 <= p < |log| && log[p].Added? && LastNamed(log[p].tools, name) == Some(tool) && log[p].id == id
    && forall q :: p < q < |log| ==> !Mentions(log[q], name) && log[q] != Removed(id)
  }

  /** The simple answer, read off the log. */
  ghost predicate LogSays(log: seq<Event>, name: string, tool: Tool, id: string) {
    exists p :: SaysAt(log, p, name, tool, id)
  }

  /** `get_tool` and the owner map answer for this name what the log says. */
  ghost predicate Agrees(s: State, log: seq<Event>, name: string) {
    && (GetTool(s, name).Some? <==> name in s.owner)
    && (GetTool(s, name).Some? ==> LogSays(log, name, GetTool(s, name).value, s.owner[name]))
    && (GetTool(s, name).None? ==> forall tool, id :: !LogSays(log, name, tool, id))
  }

  lemma {:induction false} IndexedLookup(m: map<string, Tool>, o: map<string, string>, tools: seq<Tool>, id: string, name: string)
    ensures var t := LastNamed(tools, name);
            if t.Some?
            then name in Indexed(m, tools) && Indexed(m, tools)[name] == t.value && name in Owned(o, tools, id) && Owned(o, tools, id)[name] == id
            else && (name in Indexed(m, tools) <==> name in m) && (name in m ==> Indexed(m, tools)[name] == m[name])
                 && (name in Owned(o, tools, id) <==> name in o) && (name in o ==> Owned(o, tools, id)[name] == o[name])
  {
    if tools != [] {
      IndexedLookup(m, o, tools[..|tools| - 1], id, name);
    }
  }

  /** A name has at most one answer. */
  lemma AnswerIsUnique(log: seq<Event>, name: string, t: Tool, i: string, u: Tool, j: string)
    requires LogSays(log, name, t, i) && LogSays(log, name, u, j)
    ensures t == u && i == j
  {
    var p :| SaysAt(log, p, name, t, i);
    var q :| SaysAt(log, q, name, u, j);
    assert Mentions(log[p], name) && Mentions(log[q], name);
  }

  /** One more event that does not mention the name keeps its answer, unless it removes the owner. */
  lemma AnswerKept(log: seq<Event>, e: Event, name: string, t: Tool, id: string)
    requires !Mentions(e, name)
    ensures LogSays(log + [e], name, t, id) <==> LogSays(log, name, t, id) && e != Removed(id)
  {
    var longer := log + [e];
    if LogSays(log, name, t, id) && e != Removed(id) {
      var p :| SaysAt(log, p, name, t, id);
      assert SaysAt(longer, p, name, t, id);
    }
    if LogSays(longer, name, t, id) {
      var p :| SaysAt(longer, p, name, t, id);
      assert longer[|log|] == e && p < |log|;
      assert forall q :: 0 <= q < |log| ==> longer[q] == log[q];
      assert SaysAt(log, p, name, t, id);
    }
  }

  lemma AnswerMentioned(log: seq<Event>, e: Event, name: string)
    requires Mentions(e, name)
    ensures LogSays(log + [e], name, LastNamed(e.tools, name).value, e.id)
  {
    assert SaysAt(log + [e], |log|, name, LastNamed(e.tools, name).value, e.id);
  }

  lemma StepAgrees(s: State, log: seq<Event>, call: Call, name: string)
    requires Agrees(s, log, name)
    ensures Agrees(Apply(s, call), log + [EventOf(s, call)], name)
  {
    var e, s' := EventOf(s, call), Apply(s, call);
    if e.Added? {
      IndexedLookup(s.tools, s.owner, e.tools, e.id, name);
    }
    if Mentions(e, name) {
      AnswerMentioned(log, e, name);
    } else {
      if name in s'.tools {
        AnswerKept(log, e, name, s'.tools[name], s'.owner[name]);
      } else {
        forall tool, id ensures !LogSays(log + [e], name, tool, id) {
          AnswerKept(log, e, name, tool, id);
          if name in s.tools && LogSays(log, name, tool, id) {
            AnswerIsUnique(log, name, tool, id, s.tools[name], s.owner[name]);
          }
        }
      }
    }
  }

  predicate Empty(s: State) { s.tools == map[] && s.owner == map[] }

  /** After any run of registrations, discoveries, failures and unregistrations, the index
      answers what the log answers, for every name. */
  lemma {:induction false} IndexAgreesWithLog(s: State, calls: seq<Call>, name: string)
    requires Empty(s)
    ensures Agrees(ApplyAll(s, calls), Log(s, calls), name)
  {
    if calls != [] {
      IndexAgreesWithLog(s, calls[..|calls| - 1], name);
      StepAgrees(ApplyAll(s, calls[..|calls| - 1]), Log(s, calls[..|calls| - 1]), calls[|calls| - 1], name);
    }
  }

  // ---------------------------------------------------------------------------------------
  // Servers behind the tools

  /** Both maps have the same names, and every owner has a record. */
  ghost predicate Recorded(s: State) {
    forall n :: (n in s.tools <==> n in s.owner) && (n in s.owner ==> s.owner[n] in s.records)
  }

  /** Every owner has a configuration. */
  ghost predicate Backed(s: State) {
    forall n :: n in s.owner ==> Configured(s, s.owner[n])
  }

  lemma RecordedStep(s: State, call: Call)
    requires Recorded(s)
    ensures Recorded(Apply(s, call))
  {
    var s', e := Apply(s, call), EventOf(s, call);
    forall n ensures (n in s'.tools <==> n in s'.owner) && (n in s'.owner ==> s'.owner[n] in s'.records) {
      assert (n in s.tools <==> n in s.owner) && (n in s.owner ==> s.owner[n] in s.records);
      if e.Added? {
        IndexedLookup(s.tools, s.owner, e.tools, e.id, n);
      }
    }
  }

  lemma {:induction false} OthersKeeps(servers: seq<Config>, id: string, tag: string)
    requires tag != id && exists i :: 0 <= i < |servers| && servers[i].tag == Some(tag)
    ensures exists i :: 0 <= i < |Others(servers, id)| && Others(servers, id)[i].tag == Some(tag)
  {
    var n := |servers| - 1;
    var front := Others(servers[..n], id);
    if servers[n].tag == Some(tag) {
      assert Others(servers, id)[|front|].tag == Some(tag);
    } else {
      var i :| 0 <= i < |servers| && servers[i].tag == Some(tag);
      assert servers[..n][i].tag == Some(tag);
      OthersKeeps(servers[..n], id, tag);
      var k :| 0 <= k < |front| && front[k].tag == Some(tag);
      assert Others(servers, id)[k].tag == Some(tag);
    }
  }

  /** A discovery that brings tools finds its server still configured as it arrives. */
  predicate Current(s: State, call: Call) { call.Discovered? && call.tools != [] ==> Configured(s, call.id) }

  /** Configurations survive every call but the one that unregisters them. */
  lemma ConfiguredStep(s: State, call: Call, id: string)
    requires Configured(s, id) && EventOf(s, call) != Removed(id)
    ensures Configured(Apply(s, call), id)
  {
    var i :| 0 <= i < |s.servers| && s.servers[i].tag == Some(id);
    if call.Unregister? && !(s.supportUp && call.id == SUPPORT) {
      OthersKeeps(s.servers, call.id, id);
    } else {
      assert Apply(s, call).servers[i].tag == Some(id);
    }
  }

  lemma RegisteredIsConfigured(s: State, call: Call)
    requires call.Register?
    ensures Configured(Apply(s, call), TagOf(call.config, |s.servers|))
  {
    var c' := call.config.(tag := Some(TagOf(call.config, |s.servers|)));
    var servers := Apply(s, call).servers;
    assert c' in servers;
    var i :| 0 <= i < |servers| && servers[i] == c';
  }

  lemma BackedStep(s: State, call: Call)
    requires Backed(s) && Current(s, call)
    ensures Backed(Apply(s, call))
  {
    var s', e := Apply(s, call), EventOf(s, call);
    forall n | n in s'.owner ensures Configured(s', s'.owner[n]) {
      if e.Added? {
        IndexedLookup(s.tools, s.owner, e.tools, e.id, n);
      }
      if Mentions(e, n) && call.Register? {
        RegisteredIsConfigured(s, call);
      } else {
        assert Mentions(e, n) || n in s.owner;
        ConfiguredStep(s, call, s'.owner[n]);
      }
    }
  }

  /** A discovery result leaves every tool with a configured server exactly when it brings no
      tools or its server is still configured: only a server unregistered while its discovery
      was under way leaves tools behind. */
  lemma StaleDiscoveryExactly(s: State, id: string, tools: seq<Tool>, status: Status)
    requires Backed(s)
    ensures Backed(Apply(s, Discovered(id, tools, status))) <==> tools == [] || Configured(s, id)
  {
    var call := Discovered(id, tools, status);
    var s' := Apply(s, call);
    if Configured(s, id) {
      BackedStep(s, call);
    } else if tools != [] {
      var n := tools[|tools| - 1].name;
      IndexedLookup(s.tools, s.owner, tools, id, n);
      assert s'.owner[n] == id && !Configured(s', id);
    }
  }

  ghost predicate AllCurrent(s: State, calls: seq<Call>) {
    forall i :: 0 <= i < |calls| ==> Current(ApplyAll(s, calls[..i]), calls[i])
  }

  lemma CurrentPrefix(s: State, calls: seq<Call>, n: nat)
    requires n <= |calls| && AllCurrent(s, calls)
    ensures AllCurrent(s, calls[..n])
  {
    forall i | 0 <= i < n ensures Current(ApplyAll(s, calls[..n][..i]), calls[..n][i]) {
      assert calls[..n][..i] == calls[..i];
    }
  }

  lemma {:induction false} RunIsBacked(s: State, calls: seq<Call>)
    requires Recorded(s) && Backed(s) && AllCurrent(s, calls)
    ensures Recorded(ApplyAll(s, calls)) && Backed(ApplyAll(s, calls))
  {
    if calls != [] {
      var n := |calls| - 1;
      CurrentPrefix(s, calls, n);
      RunIsBacked(s, calls[..n]);
      RecordedStep(ApplyAll(s, calls[..n]), calls[n]);
      BackedStep(ApplyAll(s, calls[..n]), calls[n]);
    }
  }

  /** Over whole runs: every tool always has a configured server exactly when every discovery
      that brings tools finds its server still configured. */
  lemma BackedExactlyWhenCurrent(s: State, calls: seq<Call>)
    requires Empty(s)
    ensures (forall i :: 0 <= i <= |calls| ==> Backed(ApplyAll(s, calls[..i]))) <==> AllCurrent(s, calls)
  {
    if AllCurrent(s, calls) {
      forall i | 0 <= i <= |calls| ensures Backed(ApplyAll(s, calls[..i])) {
        CurrentPrefix(s, calls, i);
        RunIsBacked(s, calls[..i]);
      }
    }
    if forall i :: 0 <= i <= |calls| ==> Backed(ApplyAll(s, calls[..i])) {
      forall i | 0 <= i < |calls| ensures Current(ApplyAll(s, calls[..i]), calls[i]) {
        assert Backed(ApplyAll(s, calls[..i])) && Backed(ApplyAll(s, calls[..i + 1]));
        BackedCallIsCurrent(s, calls, i);
      }
    }
  }

  lemma BackedCallIsCurrent(s: State, calls: seq<Call>, i: nat)
    requires i < |calls| && Backed(ApplyAll(s, calls[..i])) && Backed(ApplyAll(s, calls[..i + 1]))
    ensures Current(ApplyAll(s, calls[..i]), calls[i])
  {
    assert calls[..i + 1] == calls[..i] + [calls[i]];
    OneMoreCall(s, calls[..i], calls[i]);
    if calls[i].Discovered? {
      StaleDiscoveryExactly(ApplyAll(s, calls[..i]), calls[i].id, calls[i].tools, calls[i].status);
    }
  }

  /** After any run in which no discovery outlives its server, both maps have the same names,
      every mapped server has a record and a configuration, and invoking an indexed tool never
      reports a missing server. */
  lemma InvokeFindsServer(s: State, calls: seq<Call>, name: string)
    requires Empty(s) && AllCurrent(s, calls)
    ensures var t := ApplyAll(s, calls);
            && t.tools.Keys == t.owner.Keys
            && (name in t.tools ==> t.owner[name] in t.records && Configured(t, t.owner[name]))
            && Invoke(t, name) != ServerNotFound
            && (Invoke(t, name) == ToolNotFound <==> name !in t.tools)
  {
    RunIsBacked(s, calls);
    var t := ApplyAll(s, calls);
    forall n ensures n in t.tools.Keys <==> n in t.owner.Keys {
    }
    if name in t.owner {
      assert Configured(t, t.owner[name]);
    }
  }

  /** Every tool has a configured server exactly when no invocation misses one. */
  lemma BackedIsFound(s: State)
    ensures Backed(s) <==> forall name :: Invoke(s, name) != ServerNotFound
  {
    forall name ensures Invoke(s, name) == ServerNotFound <==> name in s.owner && !Configured(s, s.owner[name]) {
    }
  }

  /** Over whole runs: no invocation ever reports a missing server exactly when every discovery
      that brings tools finds its server still configured. */
  lemma NoServerMissedExactlyWhenCurrent(s: State, calls: seq<Call>)
    requires Empty(s)
    ensures (forall i, name :: 0 <= i <= |calls| ==> Invoke(ApplyAll(s, calls[..i]), name) != ServerNotFound) <==>
            AllCurrent(s, calls)
  {
    BackedExactlyWhenCurrent(s, calls);
    forall i | 0 <= i <= |calls|
      ensures Backed(ApplyAll(s, calls[..i])) <==> forall name :: Invoke(ApplyAll(s, calls[..i]), name) != ServerNotFound
    {
      BackedIsFound(ApplyAll(s, calls[..i]));
    }
  }

  /** The race: a server unregistered while its discovery runs. */
  lemma DiscoveryAfterUnregister(tool: Tool)
    ensures var s := State([Config(Some("a"), None, None, None)], map[], map[], map[], false);
            Invoke(ApplyAll(s, [Unregister("a"), Discovered("a", [tool], Healthy)]), tool.name) == ServerNotFound
  {
    var c := Config(Some("a"), None, None, None);
    var s := State([c], map[], map[], map[], false);
    var calls := [Unregister("a"), Discovered("a", [tool], Healthy)];
    assert calls[..1] == [calls[0]] && calls[..1][..0] == [];
    assert [c][..0] == [];
    assert Others([c], "a") == [];
    var s1 := Apply(s, calls[0]);
    assert ApplyAll(s, calls[..1]) == s1 && s1.servers == [];
    assert ApplyAll(s, calls) == Apply(s1, calls[1]);
    IndexedLookup(s1.tools, s1.owner, [tool], "a", tool.name);
    assert LastNamed([tool], tool.name) == Some(tool);
  }
}
