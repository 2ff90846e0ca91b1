/** Similarity search, in the form that scores every row in the process and the form that
    lets the database order the rows and fetches a bounded number of them. */
module VectorSearch {
  import opened Ranking
  import opened Cosine

  /** A stored chunk or memory entry; `norm` is the square root the platform computes for it. */
  datatype Row = Row(id: nat, embedding: seq<real>, norm: real)

  datatype Query = Query(embedding: seq<real>, norm: real)

  /** Vectors of one dimension, none of them zero. */
  ghost predicate Comparable(q: Query, row: Row) {
    && |row.embedding| == |q.embedding| && row.embedding != []
    && IsNorm(q.embedding, q.norm) && IsNorm(row.embedding, row.norm)
    && q.norm != 0.0 && row.norm != 0.0
  }

  /** The score of the in-process path. */
  function Score(q: Query, row: Row): real {
    Similarity(q.embedding, row.embedding, q.norm, row.norm)
  }

  /** The database's cosine distance, and the score selected from it. */
  function Distance(q: Query, row: Row): real
    requires |row.embedding| == |q.embedding| && q.norm != 0.0 && row.norm != 0.0
  {
    1.0 - Similarity(row.embedding, q.embedding, row.norm, q.norm)
  }

  function Scored(q: Query, rows: seq<Row>): (r: seq<Keyed<Row>>)
    ensures |r| == |rows| && forall i :: 0 <= i < |rows| ==> r[i] == Keyed(Score(q, rows[i]), rows[i])
  {
    seq(|rows|, i requires 0 <= i < |rows| => Keyed(Score(q, rows[i]), rows[i]))
  }

  /** Rows at or above the threshold, in order. */
  function Keep<T>(s: seq<Keyed<T>>, threshold: real): seq<Keyed<T>> {
    if s == [] then []
    else
      var x := s[|s| - 1];
      Keep(s[..|s| - 1], threshold) + if x.key < threshold then [] else [x]
  }

  /** The rows a scan scores: chunk search skips empty embeddings, memory search scores them zero. */
  function Eligible(rows: seq<Row>, skipEmpty: bool): seq<Row> {
    if rows == [] then []
    else
      var row := rows[|rows| - 1];
      Eligible(rows[..|rows| - 1], skipEmpty) + if skipEmpty && row.embedding == [] then [] else [row]
  }

  lemma KeepSnoc<T>(s: seq<Keyed<T>>, x: Keyed<T>, threshold: real)
    ensures Keep(s + [x], threshold) == if x.key < threshold then Keep(s, threshold) else Keep(s, threshold) + [x]
  {
    assert (s + [x])[..|s|] == s;
  }

  lemma ScanStep(q: Query, rows: seq<Row>, n: nat, skipEmpty: bool, threshold: real)
    requires n < |rows|
    ensures var kept := Keep(Scored(q, Eligible(rows[..n], skipEmpty)), threshold);
            var x := Keyed(Score(q, rows[n]), rows[n]);
            Keep(Scored(q, Eligible(rows[..n + 1], skipEmpty)), threshold) ==
              if (skipEmpty && rows[n].embedding == []) || x.key < threshold then kept else kept + [x]
  {
    assert rows[..n + 1][..n] == rows[..n];
    var before := Eligible(rows[..n], skipEmpty);
    assert before + [] == before;
    assert Scored(q, before + [rows[n]]) == Scored(q, before) + [Keyed(Score(q, rows[n]), rows[n])];
    KeepSnoc(Scored(q, before), Keyed(Score(q, rows[n]), rows[n]), threshold);
  }

  /** Only empty embeddings are skipped, and only where the search skips them; the order stays. */
  lemma {:induction false} EligibleOfSum(a: seq<Row>, b: seq<Row>, row: Row, skipEmpty: bool)
    ensures Eligible(a + b, skipEmpty) == Eligible(a, skipEmpty) + Eligible(b, skipEmpty)
    ensures Eligible([row], skipEmpty) == if skipEmpty && |row.embedding| == 0 then [] else [row]
  {
    assert [row][..0] == [];
    if b == [] {
      assert a + b == a;
    } else {
      EligibleOfSum(a, b[..|b| - 1], row, skipEmpty);
      assert (a + b)[..|a + b| - 1] == a + b[..|b| - 1];
    }
  }

  /** The number by which a row is judged: with norms that are not zero its multiple by them is the sum of
      products, and where nothing can be compared it is zero. */
  predicate IsScore(q: Query, row: Row, key: real) {
    if |row.embedding| != |q.embedding| || row.embedding == [] || q.norm == 0.0 || row.norm == 0.0 then key == 0.0
    else key * (q.norm * row.norm) == Dot(q.embedding, row.embedding)
  }

  lemma ScoreExactly(q: Query, row: Row)
    ensures IsScore(q, row, Score(q, row))
  {
    SimilarityExactly(q.embedding, row.embedding, q.norm, row.norm, Score(q, row));
  }

  /** A row that a scan looks at. */
  predicate Scans(rows: seq<Row>, skipEmpty: bool, row: Row) {
    row in rows && (skipEmpty ==> row.embedding != [])
  }

  lemma {:induction false} InEligible(rows: seq<Row>, skipEmpty: bool, row: Row)
    ensures row in Eligible(rows, skipEmpty) <==> Scans(rows, skipEmpty, row)
  {
    if rows != [] {
      var front, last := rows[..|rows| - 1], rows[|rows| - 1];
      InEligible(front, skipEmpty, row);
      assert rows == front + [last];
    }
  }

  lemma {:induction false} InKeep<T>(s: seq<Keyed<T>>, threshold: real, x: Keyed<T>)
    ensures x in Keep(s, threshold) <==> x in s && x.key >= threshold
  {
    if s != [] {
      var front, last := s[..|s| - 1], s[|s| - 1];
      InKeep(front, threshold, x);
      assert s == front + [last];
    }
  }

  /** The rows a full scan may return, with their scores. */
  function Candidates(q: Query, rows: seq<Row>, skipEmpty: bool, threshold: real): seq<Keyed<Row>> {
    Keep(Scored(q, Eligible(rows, skipEmpty)), threshold)
  }

  lemma CandidatesExactly(q: Query, rows: seq<Row>, skipEmpty: bool, threshold: real, x: Keyed<Row>)
    ensures x in Candidates(q, rows, skipEmpty, threshold) <==>
            Scans(rows, skipEmpty, x.item) && x.key == Score(q, x.item) && x.key >= threshold
  {
    var eligible := Eligible(rows, skipEmpty);
    var scored := Scored(q, eligible);
    InKeep(scored, threshold, x);
    InEligible(rows, skipEmpty, x.item);
    if x.item in eligible && x.key == Score(q, x.item) {
      var i :| 0 <= i < |eligible| && eligible[i] == x.item;
      assert scored[i] == x;
    }
  }

  /** What a full scan returns: rows it looked at, with their scores, none below the threshold, best first; and
      a row that reaches the threshold is missing only when the limit is used up by rows at least as good. */
  lemma HitsAreTheBest(q: Query, rows: seq<Row>, skipEmpty: bool, limit: nat, threshold: real, row: Row)
    ensures var hits := Take(Sort(Candidates(q, rows, skipEmpty, threshold)), limit);
            && Descending(hits) && |hits| <= limit
            && (forall h :: h in hits ==> Scans(rows, skipEmpty, h.item) && IsScore(q, h.item, h.key) && h.key >= threshold)
            && (Scans(rows, skipEmpty, row) && Score(q, row) >= threshold && Keyed(Score(q, row), row) !in hits ==>
                  |hits| == limit && forall h :: h in hits ==> h.key >= Score(q, row))
  {
    var candidates := Candidates(q, rows, skipEmpty, threshold);
    var sorted := Sort(candidates);
    var hits := Take(sorted, limit);
    SortIsOrderedPermutation(candidates);
    forall h | h in hits ensures Scans(rows, skipEmpty, h.item) && IsScore(q, h.item, h.key) && h.key >= threshold {
      assert h in multiset(sorted);
      CandidatesExactly(q, rows, skipEmpty, threshold, h);
      ScoreExactly(q, h.item);
    }
    var x := Keyed(Score(q, row), row);
    CandidatesExactly(q, rows, skipEmpty, threshold, x);
    if x in candidates && x !in hits {
      assert x in multiset(sorted);
      CutOff(sorted, limit, x);
    }
  }

  lemma CutOff<T>(sorted: seq<Keyed<T>>, limit: nat, x: Keyed<T>)
    requires Descending(sorted) && x in sorted && x !in Take(sorted, limit)
    ensures |Take(sorted, limit)| == limit && forall h :: h in Take(sorted, limit) ==> h.key >= x.key
  {
    var i :| 0 <= i < |sorted| && sorted[i] == x;
    InTake(sorted, limit, i);
  }

  lemma InTake<T>(s: seq<T>, limit: nat, i: nat)
    requires i < |s|
    ensures i < limit ==> s[i] in Take(s, limit)
  {
    if i < limit {
      assert Take(s, limit)[i] == s[i];
    }
  }

  /** Scoring everything: drop rows below the threshold, sort, cut. */
  method FullScan(q: Query, rows: seq<Row>, skipEmpty: bool, limit: nat, threshold: real) returns (hits: seq<Keyed<Row>>)
    ensures hits == Take(Sort(Candidates(q, rows, skipEmpty, threshold)), limit)
  {
    var scored: seq<Keyed<Row>> := [];
    for i := 0 to |rows|
      invariant scored == Keep(Scored(q, Eligible(rows[..i], skipEmpty)), threshold)
    {
      ScanStep(q, rows, i, skipEmpty, threshold);
      if skipEmpty && rows[i].embedding == [] {
        continue;
      }
      var similarity := Score(q, rows[i]);
      if similarity < threshold {
        continue;
      }
      scored := scored + [Keyed(similarity, rows[i])];
    }
    assert rows[..|rows|] == rows;
    hits := Take(Sort(scored), limit);
  }

  lemma {:induction false} AllEligible(rows: seq<Row>, skipEmpty: bool)
    requires forall row :: row in rows ==> row.embedding != []
    ensures Eligible(rows, skipEmpty) == rows
  {
    if rows != [] {
      var front, row := rows[..|rows| - 1], rows[|rows| - 1];
      AllEligible(front, skipEmpty);
      assert row in rows && front + [row] == rows;
    }
  }

  /** Filtering the rows the database returned, in its order, then cutting. */
  method FilterFetched(fetched: seq<Keyed<Row>>, limit: nat, threshold: real) returns (hits: seq<Keyed<Row>>)
    ensures hits == Take(Keep(fetched, threshold), limit)
  {
    hits := [];
    for i := 0 to |fetched|
      invariant hits == Keep(fetched[..i], threshold)
    {
      assert fetched[..i + 1][..i] == fetched[..i];
      if fetched[i].key < threshold {
        continue;
      }
      hits := hits + [fetched[i]];
    }
    assert fetched[..|fetched|] == fetched;
    hits := Take(hits, limit);
  }

  // ---------------------------------------------------------------------------------------

  /** One minus the database's distance is the in-process similarity, so ordering by distance
      is ordering by similarity. */
  lemma DistanceIsSimilarity(q: Query, row: Row)
    requires Comparable(q, row)
    ensures 1.0 - Distance(q, row) == Score(q, row)
    ensures 0.0 <= Distance(q, row) <= 2.0
  {
    SimilarityIsSymmetric(row.embedding, q.embedding, row.norm, q.norm);
    SimilarityIsBounded(q.embedding, row.embedding, q.norm, row.norm);
  }

  lemma PrefixOfPrefix<T>(s: seq<T>, m: nat, n: nat)
    requires n <= m <= |s|
    ensures s[..m][..n] == s[..n]
  {
  }

  lemma FrontAndLast<T>(s: seq<T>)
    requires s != []
    ensures var front := s[..|s| - 1]; front[..|front|] == front && front + [s[|s| - 1]] == s[..|s|]
  {
  }

  /** On a descending list the threshold cuts off a suffix. */
  lemma {:induction false} KeepIsPrefix<T>(s: seq<Keyed<T>>, threshold: real)
    requires Descending(s)
    ensures Keep(s, threshold) == s[..Above(s, threshold)]
  {
    if s != [] {
      var front, x := s[..|s| - 1], s[|s| - 1];
      KeepIsPrefix(front, threshold);
      AboveInPrefix(s, threshold, |front|);
      var n := Above(s, threshold);
      if x.key < threshold {
        assert n <= |front|;
        PrefixOfPrefix(s, |front|, n);
      } else {
        assert n == |s|;
        FrontAndLast(s);
      }
    }
  }

  lemma KeepOfTake<T>(s: seq<Keyed<T>>, threshold: real, fetch: nat, limit: nat)
    requires Descending(s) && limit <= fetch
    ensures Take(Keep(Take(s, fetch), threshold), limit) == Take(Keep(s, threshold), limit)
  {
    KeepIsPrefix(s, threshold);
    if fetch < |s| {
      KeepIsPrefix(s[..fetch], threshold);
      AboveInPrefix(s, threshold, fetch);
      var n := Above(s, threshold);
      if n <= fetch {
        PrefixOfPrefix(s, fetch, n);
      } else {
        PrefixOfPrefix(s, fetch, fetch);
        PrefixOfPrefix(s, fetch, limit);
        PrefixOfPrefix(s, n, limit);
      }
    }
  }

  lemma KeepOfOrderBy<T>(rows: seq<Keyed<T>>, answer: seq<Keyed<T>>, threshold: real)
    requires IsOrderBy(rows, answer)
    ensures IsOrderBy(Keep(rows, threshold), Keep(answer, threshold))
  {
    assert Descending(Keep(answer, threshold)) by { KeepIsPrefix(answer, threshold); }
    KeepOfPermutation(rows, answer, threshold);
  }

  lemma {:induction false} KeepConcat<T>(a: seq<Keyed<T>>, b: seq<Keyed<T>>, threshold: real)
    ensures Keep(a + b, threshold) == Keep(a, threshold) + Keep(b, threshold)
  {
    if b == [] {
      assert a + b == a;
    } else {
      KeepConcat(a, b[..|b| - 1], threshold);
      assert (a + b)[..|a + b| - 1] == a + b[..|b| - 1];
    }
  }

  /** Removing a row removes it from the kept rows, if it was there. */
  lemma KeepWithout<T>(s: seq<Keyed<T>>, i: nat, threshold: real)
    requires i < |s|
    ensures multiset(Keep(s, threshold)) == multiset(Keep(Without(s, i), threshold)) + multiset(Keep([s[i]], threshold))
  {
    assert s == s[..i] + ([s[i]] + s[i + 1..]);
    KeepConcat(s[..i], [s[i]] + s[i + 1..], threshold);
    KeepConcat([s[i]], s[i + 1..], threshold);
    KeepConcat(s[..i], s[i + 1..], threshold);
  }

  lemma {:induction false} KeepOfPermutation<T>(a: seq<Keyed<T>>, b: seq<Keyed<T>>, threshold: real)
    requires multiset(a) == multiset(b)
    ensures multiset(Keep(a, threshold)) == multiset(Keep(b, threshold))
    decreases |a|
  {
    assert |multiset(a)| == |a| && |multiset(b)| == |b|;
    if a != [] {
      var i := FirstRowElsewhere(a, b);
      KeepWithout(a, 0, threshold);
      KeepWithout(b, i, threshold);
      KeepOfPermutation(Without(a, 0), Without(b, i), threshold);
    }
  }

  /** The two forms agree on scores: ordering in the database, fetching any number of rows that
      is at least the limit, filtering and cutting, gives the similarities that scoring every
      row, filtering, sorting and cutting gives. */
  lemma BoundedFetchAgrees<T>(rows: seq<Keyed<T>>, answer: seq<Keyed<T>>, fetch: nat, limit: nat, threshold: real)
    requires IsOrderBy(rows, answer) && limit <= fetch
    ensures Keys(Take(Keep(Take(answer, fetch), threshold), limit)) == Keys(Take(Sort(Keep(rows, threshold)), limit))
  {
    KeepOfTake(answer, threshold, fetch, limit);
    KeepOfOrderBy(rows, answer, threshold);
    var kept := Keep(answer, threshold);
    OrderByKeys(Keep(rows, threshold), kept);
    KeysOfTake(kept, limit);
    KeysOfTake(Sort(Keep(rows, threshold)), limit);
  }

  /** Rows ordered by distance are rows ranked by similarity. */
  lemma AnswerIsRanked(q: Query, rows: seq<Row>, answer: seq<Keyed<Row>>)
    requires multiset(answer) == multiset(Scored(q, rows))
    requires forall i, j :: 0 <= i < j < |answer| ==> Ordered(q, answer[i].item, answer[j].item)
    ensures IsOrderBy(Scored(q, rows), answer)
  {
    forall i | 0 <= i < |answer| ensures answer[i].key == Score(q, answer[i].item) {
      assert answer[i] in multiset(Scored(q, rows));
    }
    forall i, j | 0 <= i < j < |answer| ensures answer[i].key >= answer[j].key {
      assert Ordered(q, answer[i].item, answer[j].item);
      DistanceIsSimilarity(q, answer[i].item);
      DistanceIsSimilarity(q, answer[j].item);
    }
  }

  /** Knowledge search fetches three times the limit; memory search fetches exactly the limit. */
  lemma SearchPathsAgree(q: Query, rows: seq<Row>, answer: seq<Keyed<Row>>, limit: nat, threshold: real)
    requires forall row :: row in rows ==> Comparable(q, row)
    requires multiset(answer) == multiset(Scored(q, rows))
    requires forall i, j :: 0 <= i < j < |answer| ==> Ordered(q, answer[i].item, answer[j].item)
    ensures Eligible(rows, true) == Eligible(rows, false) == rows
    ensures var full := Keys(Take(Sort(Keep(Scored(q, rows), threshold)), limit));
            && Keys(Take(Keep(Take(answer, 3 * limit), threshold), limit)) == full
            && Keys(Keep(Take(answer, limit), threshold)) == full
  {
    AnswerIsRanked(q, rows, answer);
    AllEligible(rows, true);
    AllEligible(rows, false);
    BoundedFetchAgrees(Scored(q, rows), answer, 3 * limit, limit, threshold);
    BoundedFetchAgrees(Scored(q, rows), answer, limit, limit, threshold);
    KeepShrinks(Take(answer, limit), threshold);
  }

  /** `ORDER BY distance` puts `a` before `b`. */
  ghost predicate Ordered(q: Query, a: Row, b: Row) {
    Comparable(q, a) && Comparable(q, b) && Distance(q, a) <= Distance(q, b)
  }

  lemma {:induction false} KeepShrinks<T>(s: seq<Keyed<T>>, threshold: real)
    ensures |Keep(s, threshold)| <= |s|
  {
    if s != [] {
      KeepShrinks(s[..|s| - 1], threshold);
    }
  }

  lemma {:induction false} KeepAll<T>(s: seq<Keyed<T>>, threshold: real)
    requires forall x :: x in s ==> x.key >= threshold
    ensures Keep(s, threshold) == s
  {
    if s != [] {
      var front, x := s[..|s| - 1], s[|s| - 1];
      KeepAll(front, threshold);
      assert x in s && front + [x] == s;
    }
  }

  ghost predicate Agrees(rows: seq<Keyed<nat>>, answer: seq<Keyed<nat>>, fetch: nat, limit: nat, threshold: real) {
    Keys(Take(Keep(Take(answer, fetch), threshold), limit)) == Keys(Take(Sort(Keep(rows, threshold)), limit))
  }

  ghost predicate AlwaysAgrees(fetch: nat, limit: nat) {
    forall rows, answer, threshold :: IsOrderBy(rows, answer) ==> Agrees(rows, answer, fetch, limit, threshold)
  }

  /** `limit` equally good rows, of which fewer were fetched. */
  lemma TooFewFetched(fetch: nat, limit: nat) returns (rows: seq<Keyed<nat>>)
    requires fetch < limit
    ensures IsOrderBy(rows, rows) && !Agrees(rows, rows, fetch, limit, 1.0)
  {
    rows := seq(limit, i requires 0 <= i < limit => Keyed(1.0, i));
    KeepAll(rows, 1.0);
    KeepShrinks(Take(rows, fetch), 1.0);
    assert |Keys(Take(Sort(rows), limit))| == limit;
    assert |Keys(Take(Keep(Take(rows, fetch), 1.0), limit))| <= fetch;
  }

  /** Fetching fewer rows than the limit can lose hits: the bound is exact. */
  lemma FetchBoundIsExact(fetch: nat, limit: nat)
    ensures AlwaysAgrees(fetch, limit) <==> fetch >= limit
  {
    if fetch >= limit {
      forall rows, answer, threshold | IsOrderBy(rows, answer) ensures Agrees(rows, answer, fetch, limit, threshold) {
        BoundedFetchAgrees(rows, answer, fetch, limit, threshold);
      }
    } else {
      var rows := TooFewFetched(fetch, limit);
    }
  }
}
