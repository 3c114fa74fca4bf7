/**
 * Top-k ranking of `retrieve_relevant_chunks`.  The similarity of the
 * query to a chunk (sentence embeddings, normalisation, dot product) is an
 * uninterpreted function `sim`; what is modelled is what the code does with the
 * scores: sort the indices ascending (numpy `argsort`, which is not stable,
 * so any ascending ordering is allowed), take the Python slice
 * `[-top_k:]`, reverse it and build one record per index.
 */
module Retriever {

  /** The `top_k` default of `retrieve_relevant_chunks`, also what the app passes. */
  const DefaultTopK: int := 5

  /** One result record `{"chunk", "score", "index"}`. */
  datatype Hit = Hit(chunk: string, score: real, index: nat)

  /** Cosine similarity of a query and a chunk, as computed by the embedding model. */
  type Similarity = (string, string) -> real

  /** One score per chunk, in chunk order. */
  function Scores(query: string, chunks: seq<string>, sim: Similarity): (s: seq<real>)
    ensures |s| == |chunks|
  {
    seq(|chunks|, i requires 0 <= i < |chunks| => sim(query, chunks[i]))
  }

  /** The indices `0 .. n-1`. */
  function Range(n: nat): (r: seq<int>)
    ensures |r| == n && forall i :: 0 <= i < n ==> r[i] == i
  {
    seq(n, i => i)
  }

  predicate InRange(order: seq<int>, n: int)
  {
    forall i :: 0 <= i < |order| ==> 0 <= order[i] < n
  }

  /** `order` lists indices whose scores never decrease. */
  predicate Ascending(scores: seq<real>, order: seq<int>)
    requires InRange(order, |scores|)
  {
    forall i, j :: 0 <= i < j < |order| ==> scores[order[i]] <= scores[order[j]]
  }

  /** Everything numpy's `argsort` may return: a permutation of the indices sorting the scores ascending. */
  predicate IsArgsort(scores: seq<real>, order: seq<int>)
  {
    multiset(order) == multiset(Range(|scores|)) && InRange(order, |scores|) && Ascending(scores, order)
  }

  /** Inserts index `i` into an ascending ordering, after every index that does not score higher. */
  function InsertIndex(scores: seq<real>, i: int, s: seq<int>): (r: seq<int>)
    requires 0 <= i < |scores| && InRange(s, |scores|) && Ascending(scores, s)
    ensures multiset(r) == multiset(s) + multiset{i}
    ensures forall x :: x in r ==> x in s || x == i
    ensures InRange(r, |scores|) && Ascending(scores, r)
  {
    if s == [] then [i]
    else if scores[s[0]] <= scores[i] then
      var rest := InsertIndex(scores, i, s[1..]);
      HeadBelowInsert(scores, i, s, rest);
      assert s == [s[0]] + s[1..];
      [s[0]] + rest
    else [i] + s
  }

  /** The head of an ascending ordering scores no higher than anything after it or than `i`. */
  lemma HeadBelowInsert(scores: seq<real>, i: int, s: seq<int>, rest: seq<int>)
    requires 0 <= i < |scores| && InRange(s, |scores|) && Ascending(scores, s) && s != []
    requires scores[s[0]] <= scores[i]
    requires InRange(rest, |scores|) && Ascending(scores, rest)
    requires forall x :: x in rest ==> x in s[1..] || x == i
    ensures InRange([s[0]] + rest, |scores|) && Ascending(scores, [s[0]] + rest)
  {
    forall j | 0 <= j < |rest| ensures scores[s[0]] <= scores[rest[j]] {
      assert rest[j] in rest;
      if rest[j] != i {
        var k :| 0 <= k < |s[1..]| && s[1..][k] == rest[j];
        assert s[k + 1] == rest[j];
      }
    }
    var r := [s[0]] + rest;
    forall a, b | 0 <= a < b < |r| ensures scores[r[a]] <= scores[r[b]] {
      if a == 0 {
        assert r[b] == rest[b - 1];
      } else {
        assert r[a] == rest[a - 1] && r[b] == rest[b - 1];
      }
    }
  }

  /** Insertion sort of a list of indices by score. */
  function SortIndices(scores: seq<real>, idx: seq<int>): (r: seq<int>)
    requires InRange(idx, |scores|)
    ensures multiset(r) == multiset(idx)
    ensures InRange(r, |scores|) && Ascending(scores, r)
  {
    if idx == [] then []
    else
      assert idx == [idx[0]] + idx[1..];
      InsertIndex(scores, idx[0], SortIndices(scores, idx[1..]))
  }

  /** One ordering numpy may produce; it shows that an ascending ordering always exists. */
  function ArgsortOf(scores: seq<real>): (order: seq<int>)
    ensures IsArgsort(scores, order)
  {
    SortIndices(scores, Range(|scores|))
  }

  /** Python's normalisation of a slice start for a sequence of length `n`. */
  function SliceStart(n: nat, start: int): (k: nat)
    ensures k <= n
  {
    if start < 0 then (if start + n < 0 then 0 else start + n)
    else if start > n then n
    else start
  }

  function Reverse<T>(s: seq<T>): (r: seq<T>)
    ensures |r| == |s| && forall k :: 0 <= k < |s| ==> r[k] == s[|s| - 1 - k]
  {
    seq(|s|, k requires 0 <= k < |s| => s[|s| - 1 - k])
  }

  /** `order[-top_k:][::-1]`: the indices the slice keeps, the last of the ascending `order` first. */
  function TopIndices(order: seq<int>, topK: int): (r: seq<int>)
    ensures |r| == |order| - SliceStart(|order|, -topK)
    ensures forall k :: 0 <= k < |r| ==> r[k] == order[|order| - 1 - k]
  {
    Reverse(order[SliceStart(|order|, -topK)..])
  }

  /** The result records for the given indices, in the given order. */
  function Records(chunks: seq<string>, scores: seq<real>, idx: seq<int>): (r: seq<Hit>)
    requires |scores| == |chunks| && InRange(idx, |chunks|)
    ensures |r| == |idx|
    ensures forall k :: 0 <= k < |idx| ==> r[k] == Hit(chunks[idx[k]], scores[idx[k]], idx[k])
  {
    seq(|idx|, k requires 0 <= k < |idx| => Hit(chunks[idx[k]], scores[idx[k]], idx[k]))
  }

  /**
   * The ranked records for one admissible `argsort` result `order`: one per
   * kept index, the highest-ranked first, each with its chunk and score.
   */
  function TopK(chunks: seq<string>, scores: seq<real>, topK: int, order: seq<int>): (r: seq<Hit>)
    requires |scores| == |chunks| && IsArgsort(scores, order)
    ensures |r| == |order| - SliceStart(|order|, -topK)
    ensures forall k :: 0 <= k < |r| ==>
              r[k].index == order[|order| - 1 - k] && r[k].chunk == chunks[r[k].index] && r[k].score == scores[r[k].index]
  {
    TopIndicesInRange(|chunks|, order, topK);
    Records(chunks, scores, TopIndices(order, topK))
  }

  /**
   * What `retrieve_relevant_chunks` returns for one admissible `argsort`
   * result: nothing for no chunks, and never more records than chunks.
   */
  function Retrieved(query: string, chunks: seq<string>, topK: int, sim: Similarity, order: seq<int>): (r: seq<Hit>)
    requires IsArgsort(Scores(query, chunks, sim), order)
    ensures chunks == [] ==> r == []
    ensures |r| <= |chunks|
  {
    if chunks == [] then []
    else
      ArgsortIsPermutation(Scores(query, chunks, sim), order);
      TopK(chunks, Scores(query, chunks, sim), topK, order)
  }

  /** The chunk indices present in a result. */
  function Returned(res: seq<Hit>): set<int>
  {
    set h | h in res :: h.index as int
  }

  function Min(a: int, b: int): int { if a <= b then a else b }
  function Max(a: int, b: int): int { if a >= b then a else b }

  lemma TopIndicesInRange(n: nat, order: seq<int>, topK: int)
    requires InRange(order, n)
    ensures InRange(TopIndices(order, topK), n)
  {
  }

  /** Each index occurs exactly once in `Range(n)`. */
  lemma {:induction false} RangeCount(n: nat, v: int)
    ensures multiset(Range(n))[v] == if 0 <= v < n then 1 else 0
  {
    if n > 0 {
      RangeCount(n - 1, v);
      assert Range(n) == Range(n - 1) + [n - 1];
    }
  }

  /** An admissible `argsort` result is a permutation of the chunk indices. */
  lemma ArgsortIsPermutation(scores: seq<real>, order: seq<int>)
    requires IsArgsort(scores, order)
    ensures |order| == |scores|
    ensures forall a, b :: 0 <= a < b < |order| ==> order[a] != order[b]
    ensures forall v :: 0 <= v < |scores| ==> v in order
  {
    assert |order| == |multiset(order)| == |multiset(Range(|scores|))| == |scores|;
    forall v | 0 <= v < |scores| ensures v in order {
      RangeCount(|scores|, v);
      assert v in multiset(order);
    }
    forall a, b | 0 <= a < b < |order| ensures order[a] != order[b] {
      if order[a] == order[b] {
        var v := order[a];
        assert order == order[..b] + order[b..];
        assert v in order[..b] && v in order[b..];
        assert multiset(order) == multiset(order[..b]) + multiset(order[b..]);
        assert multiset(order)[v] >= 2;
        RangeCount(|scores|, v);
        assert false;
      }
    }
  }

  /** Every record names an existing chunk and carries that chunk's text and score. */
  lemma TopKRecordsMatch(chunks: seq<string>, scores: seq<real>, topK: int, order: seq<int>)
    requires |scores| == |chunks| && IsArgsort(scores, order)
    ensures var res := TopK(chunks, scores, topK, order);
            forall k :: 0 <= k < |res| ==>
              res[k].index < |chunks| && res[k].chunk == chunks[res[k].index] && res[k].score == scores[res[k].index]
  {
  }

  /** How many records there are, following Python's slice `[-top_k:]`. */
  lemma TopKLength(chunks: seq<string>, scores: seq<real>, topK: int, order: seq<int>)
    requires |scores| == |chunks| && IsArgsort(scores, order)
    ensures |TopK(chunks, scores, topK, order)| ==
              if topK == 0 then |chunks|
              else if topK > 0 then Min(topK, |chunks|)
              else Max(|chunks| + topK, 0)
  {
    ArgsortIsPermutation(scores, order);
  }

  /** No chunk is returned twice. */
  lemma TopKDistinct(chunks: seq<string>, scores: seq<real>, topK: int, order: seq<int>)
    requires |scores| == |chunks| && IsArgsort(scores, order)
    ensures var res := TopK(chunks, scores, topK, order);
            forall a, b :: 0 <= a < b < |res| ==> res[a].index != res[b].index
  {
    ArgsortIsPermutation(scores, order);
    var res := TopK(chunks, scores, topK, order);
    var st := SliceStart(|order|, -topK);
    var tail := order[st..];
    forall a, b | 0 <= a < b < |res| ensures res[a].index != res[b].index {
      assert res[a].index == tail[|tail| - 1 - a] == order[st + |tail| - 1 - a];
      assert res[b].index == tail[|tail| - 1 - b] == order[st + |tail| - 1 - b];
    }
  }

  /** Scores never increase from the first record to the last. */
  lemma TopKNonIncreasing(chunks: seq<string>, scores: seq<real>, topK: int, order: seq<int>)
    requires |scores| == |chunks| && IsArgsort(scores, order)
    ensures var res := TopK(chunks, scores, topK, order);
            forall a, b :: 0 <= a < b < |res| ==> res[a].score >= res[b].score
  {
    var res := TopK(chunks, scores, topK, order);
    var st := SliceStart(|order|, -topK);
    var tail := order[st..];
    forall a, b | 0 <= a < b < |res| ensures res[a].score >= res[b].score {
      assert res[a].index == order[st + |tail| - 1 - a];
      assert res[b].index == order[st + |tail| - 1 - b];
    }
  }

  /** A chunk left out scores no higher than any chunk returned. */
  lemma TopKMaximal(chunks: seq<string>, scores: seq<real>, topK: int, order: seq<int>)
    requires |scores| == |chunks| && IsArgsort(scores, order)
    ensures var res := TopK(chunks, scores, topK, order);
            forall j, k :: 0 <= j < |chunks| && j !in Returned(res) && 0 <= k < |res| ==> scores[j] <= res[k].score
  {
    ArgsortIsPermutation(scores, order);
    var res := TopK(chunks, scores, topK, order);
    var st := SliceStart(|order|, -topK);
    var tail := order[st..];
    forall j, k | 0 <= j < |chunks| && j !in Returned(res) && 0 <= k < |res| ensures scores[j] <= res[k].score {
      assert j in order;
      var p :| 0 <= p < |order| && order[p] == j;
      if p >= st {
        TailReturned(chunks, scores, topK, order, p);
      }
      assert p < st;
      assert res[k].index == order[st + |tail| - 1 - k];
    }
  }

  /** With `top_k == 0` (the slice `[-0:]` is the whole array) or a large `top_k`, every chunk is returned. */
  lemma TopKAllWhenZeroOrLarge(chunks: seq<string>, scores: seq<real>, topK: int, order: seq<int>)
    requires |scores| == |chunks| && IsArgsort(scores, order)
    requires topK == 0 || topK >= |chunks|
    ensures var res := TopK(chunks, scores, topK, order);
            |res| == |chunks| && forall j :: 0 <= j < |chunks| ==> j in Returned(res)
  {
    ArgsortIsPermutation(scores, order);
    var res := TopK(chunks, scores, topK, order);
    assert SliceStart(|order|, -topK) == 0;
    forall j | 0 <= j < |chunks| ensures j in Returned(res) {
      assert j in order;
      var p :| 0 <= p < |order| && order[p] == j;
      var q := |order| - 1 - p;
      assert res[q].index == j;
      assert res[q] in res;
    }
  }

  /** Every index in the kept slice of `order` is returned. */
  lemma TailReturned(chunks: seq<string>, scores: seq<real>, topK: int, order: seq<int>, p: int)
    requires |scores| == |chunks| && IsArgsort(scores, order)
    requires SliceStart(|order|, -topK) <= p < |order|
    ensures order[p] in Returned(TopK(chunks, scores, topK, order))
  {
    var res := TopK(chunks, scores, topK, order);
    var st := SliceStart(|order|, -topK);
    var q := |order| - st - 1 - (p - st);
    assert res[q].index == order[p];
    assert res[q] in res;
  }

  /**
   * What a caller of `retrieve_relevant_chunks` may rely on: every record
   * names a chunk with its text and score, no chunk twice, best first, as
   * many as the slice `[-top_k:]` keeps, and nothing left out scores higher
   * than anything returned.
   */
  ghost predicate IsRanking(query: string, chunks: seq<string>, topK: int, sim: Similarity, results: seq<Hit>)
  {
    (chunks == [] ==> results == [])
    && RecordsMatch(query, chunks, sim, results)
    && DistinctBestFirst(results)
    && CountFollowsSlice(chunks, topK, results)
    && NothingBetterLeftOut(query, chunks, sim, results)
  }

  /** Every record names an existing chunk, with that chunk's text and its similarity to the query. */
  ghost predicate RecordsMatch(query: string, chunks: seq<string>, sim: Similarity, results: seq<Hit>)
  {
    forall k :: 0 <= k < |results| ==>
      results[k].index < |chunks| && results[k].chunk == chunks[results[k].index]
      && results[k].score == sim(query, chunks[results[k].index])
  }

  /** No chunk twice, and scores never increase along the result. */
  ghost predicate DistinctBestFirst(results: seq<Hit>)
  {
    forall a, b :: 0 <= a < b < |results| ==>
      results[a].index != results[b].index && results[a].score >= results[b].score
  }

  /**
   * As many records as the slice `[-top_k:]` keeps: `top_k` (or all when there
   * are fewer), all for `top_k == 0`, and all but `-top_k` for a negative one.
   */
  ghost predicate CountFollowsSlice(chunks: seq<string>, topK: int, results: seq<Hit>)
  {
    (topK >= 1 ==> |results| == Min(topK, |chunks|))
    && (topK == 0 ==> |results| == |chunks|)
    && (topK < 0 ==> |results| == Max(|chunks| + topK, 0))
  }

  /** A chunk that is not returned is no more similar to the query than any chunk that is. */
  ghost predicate NothingBetterLeftOut(query: string, chunks: seq<string>, sim: Similarity, results: seq<Hit>)
  {
    forall j, k :: 0 <= j < |chunks| && j !in Returned(results) && 0 <= k < |results| ==>
      sim(query, chunks[j]) <= results[k].score
  }

  /** The promises of `retrieve_relevant_chunks` hold for every admissible `argsort` result. */
  lemma RetrievedIsRanking(query: string, chunks: seq<string>, topK: int, sim: Similarity, order: seq<int>)
    requires IsArgsort(Scores(query, chunks, sim), order)
    ensures IsRanking(query, chunks, topK, sim, Retrieved(query, chunks, topK, sim, order))
  {
    if chunks != [] {
      RetrievedRecordsMatch(query, chunks, topK, sim, order);
      RetrievedDistinctBestFirst(query, chunks, topK, sim, order);
      RetrievedCount(query, chunks, topK, sim, order);
      RetrievedNothingBetterLeftOut(query, chunks, topK, sim, order);
    }
  }

  lemma RetrievedRecordsMatch(query: string, chunks: seq<string>, topK: int, sim: Similarity, order: seq<int>)
    requires chunks != [] && IsArgsort(Scores(query, chunks, sim), order)
    ensures RecordsMatch(query, chunks, sim, Retrieved(query, chunks, topK, sim, order))
  {
    var scores := Scores(query, chunks, sim);
    TopKRecordsMatch(chunks, scores, topK, order);
  }

  lemma RetrievedDistinctBestFirst(query: string, chunks: seq<string>, topK: int, sim: Similarity, order: seq<int>)
    requires chunks != [] && IsArgsort(Scores(query, chunks, sim), order)
    ensures DistinctBestFirst(Retrieved(query, chunks, topK, sim, order))
  {
    var scores := Scores(query, chunks, sim);
    TopKDistinct(chunks, scores, topK, order);
    TopKNonIncreasing(chunks, scores, topK, order);
  }

  lemma RetrievedCount(query: string, chunks: seq<string>, topK: int, sim: Similarity, order: seq<int>)
    requires chunks != [] && IsArgsort(Scores(query, chunks, sim), order)
    ensures CountFollowsSlice(chunks, topK, Retrieved(query, chunks, topK, sim, order))
  {
    TopKLength(chunks, Scores(query, chunks, sim), topK, order);
  }

  lemma RetrievedNothingBetterLeftOut(query: string, chunks: seq<string>, topK: int, sim: Similarity, order: seq<int>)
    requires chunks != [] && IsArgsort(Scores(query, chunks, sim), order)
    ensures NothingBetterLeftOut(query, chunks, sim, Retrieved(query, chunks, topK, sim, order))
  {
    var scores := Scores(query, chunks, sim);
    var results := TopK(chunks, scores, topK, order);
    TopKMaximal(chunks, scores, topK, order);
    forall j, k | 0 <= j < |chunks| && j !in Returned(results) && 0 <= k < |results|
      ensures sim(query, chunks[j]) <= results[k].score
    {
      assert scores[j] == sim(query, chunks[j]);
    }
  }

  /**
   * `retrieve_relevant_chunks(query, chunks, top_k)`: nothing is scored for
   * an empty chunk list; otherwise the records of the top-ranked chunks,
   * best first, for some ordering `argsort` may produce.
   */
  method RetrieveRelevantChunks(query: string, chunks: seq<string>, topK: int, sim: Similarity)
    returns (results: seq<Hit>)
    ensures chunks == [] ==> results == []
    ensures exists order :: IsArgsort(Scores(query, chunks, sim), order)
                            && results == Retrieved(query, chunks, topK, sim, order)
    ensures IsRanking(query, chunks, topK, sim, results)
  {
    if chunks == [] {
      assert IsArgsort(Scores(query, chunks, sim), []);
      RetrievedIsRanking(query, chunks, topK, sim, []);
      return [];
    }
    var scores := Scores(query, chunks, sim);
    var order := ArgsortOf(scores);
    var top := TopIndices(order, topK);
    TopIndicesInRange(|chunks|, order, topK);
    results := [];
    for i := 0 to |top|
      invariant results == Records(chunks, scores, top[..i])
    {
      var idx := top[i];
      assert top[..i + 1] == top[..i] + [idx];
      results := results + [Hit(chunks[idx], scores[idx], idx)];
    }
    assert top[..|top|] == top;
    assert results == Retrieved(query, chunks, topK, sim, order);
    RetrievedIsRanking(query, chunks, topK, sim, order);
  }
}
