/** The activity feed: the newest items of several sources, merged. */
module Dashboard {
  import opened Text
  import opened Ranking

  datatype Kind = Evaluation | ToolCall | SessionStart
  datatype Activity = Activity(kind: Kind, id: nat, status: string)
  type Item = Keyed<Activity>

  /** Appends the rows of each query, sorts in place, and cuts. If the rows are what the three
      queries may answer, the times are those of the newest items of the three tables together. */
  method RecentActivity(evaluations: seq<Item>, tools: seq<Item>, sessions: seq<Item>,
                        limit: nat)
    returns (items: seq<Item>)
    ensures items == Take(Sort(evaluations + tools + sessions), limit)
    ensures forall e, t, s ::
              (IsAnswer(e, evaluations, limit) && IsAnswer(t, tools, limit) && IsAnswer(s, sessions, limit))
              ==> Keys(items) == Keys(Take(Sort(e + t + s), limit))
  {
    items := [];
    for i := 0 to |evaluations|
      invariant items == evaluations[..i]
    {
      items := items + [evaluations[i]];
    }
    assert items == evaluations;
    for i := 0 to |tools|
      invariant items == evaluations + tools[..i]
    {
      items := items + [tools[i]];
    }
    assert items == evaluations + tools;
    for i := 0 to |sessions|
      invariant items == evaluations + tools + sessions[..i]
    {
      items := items + [sessions[i]];
    }
    assert items == evaluations + tools + sessions;
    items := Take(Sort(items), limit);
    forall e, t, s | IsAnswer(e, evaluations, limit) && IsAnswer(t, tools, limit) && IsAnswer(s, sessions, limit)
      ensures Keys(items) == Keys(Take(Sort(e + t + s), limit))
    {
      MergeOfThree(e, t, s, evaluations, tools, sessions, limit);
    }
  }

  lemma MergeOfThree(e: seq<Item>, t: seq<Item>, s: seq<Item>, evaluations: seq<Item>, tools: seq<Item>, sessions: seq<Item>,
                     limit: nat)
    requires IsAnswer(e, evaluations, limit) && IsAnswer(t, tools, limit) && IsAnswer(s, sessions, limit)
    ensures Keys(Take(Sort(evaluations + tools + sessions), limit)) == Keys(Take(Sort(e + t + s), limit))
  {
    MergeOfNewest([e, t, s], [evaluations, tools, sessions], limit);
    FlattenThree(e, t, s);
    FlattenThree(evaluations, tools, sessions);
  }

  lemma FlattenThree(a: seq<Item>, b: seq<Item>, c: seq<Item>)
    ensures Flatten([a, b, c]) == a + b + c
  {
    FlattenSnoc([a, b], c);
    FlattenSnoc([a], b);
    FlattenSnoc([], a);
    assert [a, b] + [c] == [a, b, c] && [a] + [b] == [a, b] && [] + [a] == [a];
  }

  /** What ORDER BY time DESC LIMIT may return for one source. */
  ghost predicate IsAnswer(source: seq<Item>, answer: seq<Item>, limit: nat) {
    exists full :: IsOrderBy(source, full) && answer == Take(full, limit)
  }

  ghost predicate Answers(sources: seq<seq<Item>>, answers: seq<seq<Item>>, limit: nat) {
    |answers| == |sources| && forall i :: 0 <= i < |sources| ==> IsAnswer(sources[i], answers[i], limit)
  }

  /** Lists with the same multiset of keys sort to the same keys. */
  lemma SortedKeys(a: seq<Item>, b: seq<Item>)
    requires multiset(Keys(a)) == multiset(Keys(b))
    ensures Keys(Sort(a)) == Keys(Sort(b))
  {
    SortIsOrderedPermutation(a);
    SortIsOrderedPermutation(b);
    KeysOfPermutation(Sort(a), a);
    KeysOfPermutation(Sort(b), b);
    ArrangementIsUnique(Keys(Sort(a)), Keys(Sort(b)));
  }

  function Best(s: seq<Item>, k: nat): seq<real> {
    Take(Keys(Sort(s)), k)
  }

  /** Cutting one source to its newest `k` does not change the newest `k` of everything. */
  lemma CutOneSource(before: seq<Item>, source: seq<Item>, after: seq<Item>, full: seq<Item>, k: nat)
    requires IsOrderBy(source, full)
    ensures Best(before + Take(full, k) + after, k) == Best(before + source + after, k)
  {
    var rest := before + after;
    OrderByKeys(source, full);
    KeysOfTake(full, k);
    KeysOfTake(Sort(source), k);
    KeysConcat(before, Take(full, k));
    KeysConcat(before + Take(full, k), after);
    KeysConcat(before, after);
    KeysConcat(Take(Sort(source), k), rest);
    SortedKeys(before + Take(full, k) + after, Take(Sort(source), k) + rest);
    CutFirst(source, rest, k);
    KeysOfTake(Sort(source + rest), k);
    KeysOfTake(Sort(Take(Sort(source), k) + rest), k);
    KeysConcat(before, source);
    KeysConcat(before + source, after);
    KeysConcat(source, rest);
    SortedKeys(source + rest, before + source + after);
  }

  lemma Regroup(a: seq<Item>, b: seq<Item>, c: seq<Item>)
    ensures a + (b + c) == a + b + c
  {
  }

  lemma AnswersOfFront(sources: seq<seq<Item>>, answers: seq<seq<Item>>, limit: nat)
    requires Answers(sources, answers, limit) && sources != []
    ensures Answers(sources[..|sources| - 1], answers[..|answers| - 1], limit)
    ensures IsAnswer(sources[|sources| - 1], answers[|sources| - 1], limit)
  {
  }

  lemma {:induction false} CutEverySource(
    sources: seq<seq<Item>>, answers: seq<seq<Item>>, after: seq<Item>, limit: nat)
    requires Answers(sources, answers, limit)
    ensures Best(Flatten(answers) + after, limit) == Best(Flatten(sources) + after, limit)
  {
    if sources != [] {
      var n := |sources| - 1;
      AnswersOfFront(sources, answers, limit);
      var full :| IsOrderBy(sources[n], full) && answers[n] == Take(full, limit);
      CutEverySource(sources[..n], answers[..n], answers[n] + after, limit);
      CutOneSource(Flatten(sources[..n]), sources[n], after, full, limit);
      Regroup(Flatten(answers[..n]), answers[n], after);
      Regroup(Flatten(sources[..n]), answers[n], after);
    }
  }

  /** Merging the newest `limit` items of each source gives the timestamps of the newest
      `limit` items of the whole union, for any number of sources and any tie-breaking. */
  lemma MergeOfNewest(sources: seq<seq<Item>>, answers: seq<seq<Item>>, limit: nat)
    requires Answers(sources, answers, limit)
    ensures Keys(Take(Sort(Flatten(answers)), limit)) == Keys(Take(Sort(Flatten(sources)), limit))
  {
    CutEverySource(sources, answers, [], limit);
    assert Flatten(answers) + [] == Flatten(answers) && Flatten(sources) + [] == Flatten(sources);
    KeysOfTake(Sort(Flatten(answers)), limit);
    KeysOfTake(Sort(Flatten(sources)), limit);
  }

  lemma {:induction false} AnswersComeFromSources(
    sources: seq<seq<Item>>, answers: seq<seq<Item>>, limit: nat, x: Item)
    requires Answers(sources, answers, limit) && x in Flatten(answers)
    ensures x in Flatten(sources)
  {
    if sources != [] {
      var n := |sources| - 1;
      AnswersOfFront(sources, answers, limit);
      if x in answers[n] {
        var full :| IsOrderBy(sources[n], full) && answers[n] == Take(full, limit);
        assert x in multiset(full);
      } else {
        AnswersComeFromSources(sources[..n], answers[..n], limit, x);
      }
    }
  }

  /** With distinct timestamps the merged feed has the same items as the whole union's. */
  lemma MergeOfNewestItems(sources: seq<seq<Item>>, answers: seq<seq<Item>>, limit: nat)
    requires Answers(sources, answers, limit)
    requires forall x, y :: x in Flatten(sources) && y in Flatten(sources) && x.key == y.key ==> x == y
    ensures Take(Sort(Flatten(answers)), limit) == Take(Sort(Flatten(sources)), limit)
  {
    MergeOfNewest(sources, answers, limit);
    var merged, whole := Take(Sort(Flatten(answers)), limit), Take(Sort(Flatten(sources)), limit);
    forall x | x in merged ensures x in Flatten(sources) {
      TakenFromList(Flatten(answers), limit, x);
      AnswersComeFromSources(sources, answers, limit, x);
    }
    forall x | x in whole ensures x in Flatten(sources) {
      TakenFromList(Flatten(sources), limit, x);
    }
    SameByKeys(merged, whole);
  }

  lemma TakenFromList(s: seq<Item>, limit: nat, x: Item)
    requires x in Take(Sort(s), limit)
    ensures x in s
  {
    SortIsOrderedPermutation(s);
    assert x in multiset(Sort(s));
  }

  lemma SameByKeys(a: seq<Item>, b: seq<Item>)
    requires Keys(a) == Keys(b)
    requires forall x, y :: x in a && y in b && x.key == y.key ==> x == y
    ensures a == b
  {
    assert |a| == |Keys(a)| && |b| == |Keys(b)|;
    forall i | 0 <= i < |a| ensures a[i] == b[i] {
      assert a[i].key == Keys(a)[i] && b[i].key == Keys(b)[i];
    }
  }
}
