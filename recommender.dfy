/**
 The nearest-match recommender of the `/userselect` route.

 For every selected play, in the order the database returned them, every play
 of the running pool with a different `mt20id` is scored against it; the list
 of (play, similarity) pairs is sorted by descending similarity with Python's
 stable sort and its first element is kept. The kept plays are gathered in a
 dictionary keyed by `mt20id` where the first writer wins, and the dictionary's
 values are returned in insertion order.

 The numeric side is abstract: `decode` stands for `literal_eval` followed by
 `np.array` (None when the text does not parse into a vector) and `cosine` for
 the value of `cosine_similarity` on two vectors of the same length. Two
 vectors of different lengths make `np.dot` raise. Any failure aborts the
 whole request.
 */
module Recommender {
  import opened StableSort

  type Vector = seq<real>

  /** A row of the query for the selected plays: `mt20id` and serialised `embedding`. */
  datatype SelectedPlay = SelectedPlay(mt20id: string, embedding: string)

  /** A row of the query for the running plays. */
  datatype Play = Play(mt20id: string, prfnm: string, sty: string, poster: string,
                       relateurl1: string, embedding: string)

  /** One entry of the response: the display columns of a play, without its score. */
  datatype Match = Match(mt20id: string, prfnm: string, sty: string, poster: string, relateurl1: string)

  /** One `(play, similarity)` pair of the `similarities` list. */
  datatype Scored = Scored(play: Play, similarity: real)

  /** What aborts the request. */
  datatype Error =
    | Malformed(text: string)             // the embedding text does not decode to a vector
    | ShapeMismatch(left: nat, right: nat) // `np.dot` on vectors of different lengths

  datatype Result<T> = Success(value: T) | Failure(error: Error)

  datatype Option<T> = None | Some(value: T)

  /** The numeric collaborators, kept abstract. */
  datatype Numerics = Numerics(decode: string -> Option<Vector>, cosine: (Vector, Vector) -> real)

  function Project(p: Play): Match {
    Match(p.mt20id, p.prfnm, p.sty, p.poster, p.relateurl1)
  }

  function SimilarityOf(x: Scored): real {
    x.similarity
  }

  // ---------------------------------------------------------------------------
  // Scoring one selected play against the pool

  /** Decoding a pool row's embedding and scoring it against the selected vector `sv`. */
  function Score(num: Numerics, sv: Vector, q: Play): (r: Result<real>)
    ensures r.Success? <==> num.decode(q.embedding).Some? && |num.decode(q.embedding).value| == |sv|
  {
    match num.decode(q.embedding)
    case None => Failure(Malformed(q.embedding))
    case Some(pv) =>
      if |sv| != |pv| then Failure(ShapeMismatch(|sv|, |pv|))
      else Success(num.cosine(sv, pv))
  }

  /** The `similarities` list for the selected play `sid` after scanning `pool`, or the first failure. */
  function Similarities(num: Numerics, sv: Vector, sid: string, pool: seq<Play>): Result<seq<Scored>>
    decreases |pool|
  {
    if pool == [] then Success([])
    else
      match Similarities(num, sv, sid, pool[..|pool| - 1])
      case Failure(e) => Failure(e)
      case Success(sims) =>
        var q := pool[|pool| - 1];
        if q.mt20id == sid then Success(sims)
        else
          match Score(num, sv, q)
          case Failure(e) => Failure(e)
          case Success(x) => Success(sims + [Scored(q, x)])
  }

  /** The positions of the pool rows whose `mt20id` differs from `sid`, in increasing order. */
  function Eligible(sid: string, pool: seq<Play>): (idx: seq<nat>)
    ensures forall k :: 0 <= k < |idx| ==> idx[k] < |pool| && pool[idx[k]].mt20id != sid
    decreases |pool|
  {
    if pool == [] then []
    else
      var n := |pool| - 1;
      var rest := Eligible(sid, pool[..n]);
      assert forall j :: 0 <= j < n ==> pool[..n][j] == pool[j];
      if pool[n].mt20id != sid then rest + [n] else rest
  }

  /** The eligible positions are strictly increasing. */
  lemma {:induction false} EligibleOrdered(sid: string, pool: seq<Play>)
    ensures forall k1, k2 :: 0 <= k1 < k2 < |Eligible(sid, pool)| ==> Eligible(sid, pool)[k1] < Eligible(sid, pool)[k2]
    decreases |pool|
  {
    if pool != [] {
      var n := |pool| - 1;
      var idx0 := Eligible(sid, pool[..n]);
      var idx := Eligible(sid, pool);
      EligibleOrdered(sid, pool[..n]);
      if pool[n].mt20id != sid {
        assert idx == idx0 + [n];
        forall k1, k2 | 0 <= k1 < k2 < |idx|
          ensures idx[k1] < idx[k2]
        {
          assert idx[k1] == idx0[k1] < n;
          if k2 < |idx0| {
            assert idx[k2] == idx0[k2];
          } else {
            assert idx[k2] == n;
          }
        }
      } else {
        assert idx == idx0;
      }
    }
  }

  /** Every row with another id has its position among the eligible ones. */
  lemma {:induction false} EligibleComplete(sid: string, pool: seq<Play>)
    ensures forall j :: 0 <= j < |pool| && pool[j].mt20id != sid ==> j in Eligible(sid, pool)
    decreases |pool|
  {
    if pool != [] {
      var n := |pool| - 1;
      var idx0 := Eligible(sid, pool[..n]);
      var idx := Eligible(sid, pool);
      EligibleComplete(sid, pool[..n]);
      assert forall j :: 0 <= j < n ==> pool[..n][j] == pool[j];
      assert idx == if pool[n].mt20id != sid then idx0 + [n] else idx0;
    }
  }

  /** The play kept for one selected play: the head of the sorted list, if any. */
  function BestMatch(num: Numerics, s: SelectedPlay, pool: seq<Play>): Result<Option<Play>> {
    match num.decode(s.embedding)
    case None => Failure(Malformed(s.embedding))
    case Some(sv) =>
      match Similarities(num, sv, s.mt20id, pool)
      case Failure(e) => Failure(e)
      case Success(sims) =>
        var top := Take(SortDescending(sims, SimilarityOf), 1);
        Success(if top == [] then None else Some(top[0].play))
  }

  /** The inner loop of `user_select` in app.py: score every pool row with another id against `sv`, stopping at the first failure. */
  method ScanPool(num: Numerics, sv: Vector, sid: string, pool: seq<Play>) returns (r: Result<seq<Scored>>)
    ensures r == Similarities(num, sv, sid, pool)
  {
    var similarities: seq<Scored> := [];
    var j := 0;
    while j < |pool|
      invariant 0 <= j <= |pool|
      invariant Similarities(num, sv, sid, pool[..j]) == Success(similarities)
    {
      var play := pool[j];
      assert pool[..j + 1][..j] == pool[..j];
      if play.mt20id != sid {
        var pv := num.decode(play.embedding);
        if pv.None? {
          SimilaritiesFailureSticks(num, sv, sid, pool, j + 1);
          assert pool[..|pool|] == pool;
          return Failure(Malformed(play.embedding));
        }
        if |sv| != |pv.value| {
          SimilaritiesFailureSticks(num, sv, sid, pool, j + 1);
          assert pool[..|pool|] == pool;
          return Failure(ShapeMismatch(|sv|, |pv.value|));
        }
        var similarity := num.cosine(sv, pv.value);
        similarities := similarities + [Scored(play, similarity)];
      }
      j := j + 1;
    }
    assert pool[..|pool|] == pool;
    r := Success(similarities);
  }

  /** One iteration of the outer loop of `user_select` in app.py: decode the selected embedding, score the pool, sort and keep the first pair. */
  method MatchSelected(num: Numerics, s: SelectedPlay, pool: seq<Play>) returns (r: Result<Option<Play>>)
    ensures r == BestMatch(num, s, pool)
    ensures r.Success? && r.value.Some? ==> r.value.value in pool && r.value.value.mt20id != s.mt20id
  {
    var decoded := num.decode(s.embedding);
    if decoded.None? {
      return Failure(Malformed(s.embedding));
    }
    var scanned := ScanPool(num, decoded.value, s.mt20id, pool);
    if scanned.Failure? {
      return Failure(scanned.error);
    }
    var similarities := SortDescending(scanned.value, SimilarityOf);
    var top := Take(similarities, 1);
    r := Success(if top == [] then None else Some(top[0].play));
    if r.value.Some? {
      BestMatchChoice(num, s, pool, r.value.value);
    }
  }

  lemma {:induction false} SimilaritiesFailureSticks(num: Numerics, sv: Vector, sid: string, pool: seq<Play>, n: nat)
    requires n <= |pool|
    requires Similarities(num, sv, sid, pool[..n]).Failure?
    ensures Similarities(num, sv, sid, pool) == Similarities(num, sv, sid, pool[..n])
    decreases |pool|
  {
    if n < |pool| {
      var m := |pool| - 1;
      assert pool[..m][..n] == pool[..n];
      SimilaritiesFailureSticks(num, sv, sid, pool[..m], n);
    } else {
      assert pool[..n] == pool;
    }
  }

  /** A successful scan scores exactly the eligible rows, in pool order. */
  lemma {:induction false} SimilaritiesSuccess(num: Numerics, sv: Vector, sid: string, pool: seq<Play>)
    requires Similarities(num, sv, sid, pool).Success?
    ensures var sims := Similarities(num, sv, sid, pool).value;
            var idx := Eligible(sid, pool);
            && |sims| == |idx|
            && forall k :: 0 <= k < |sims| ==>
                 sims[k].play == pool[idx[k]] && Score(num, sv, pool[idx[k]]) == Success(sims[k].similarity)
    decreases |pool|
  {
    if pool != [] {
      var n := |pool| - 1;
      var sims0 := Similarities(num, sv, sid, pool[..n]).value;
      var idx0 := Eligible(sid, pool[..n]);
      var sims := Similarities(num, sv, sid, pool).value;
      var idx := Eligible(sid, pool);
      SimilaritiesSuccess(num, sv, sid, pool[..n]);
      assert forall j :: 0 <= j < n ==> pool[..n][j] == pool[j];
      if pool[n].mt20id == sid {
        assert sims == sims0 && idx == idx0;
      } else {
        assert sims == sims0 + [Scored(pool[n], Score(num, sv, pool[n]).value)];
        assert idx == idx0 + [n];
        forall k | 0 <= k < |sims|
          ensures sims[k].play == pool[idx[k]] && Score(num, sv, pool[idx[k]]) == Success(sims[k].similarity)
        {
          if k < |sims0| {
            assert sims[k] == sims0[k] && idx[k] == idx0[k];
          }
        }
      }
    }
  }

  /** The scan fails exactly when some eligible row fails to score, and then with the first such failure. */
  lemma {:induction false} SimilaritiesFailure(num: Numerics, sv: Vector, sid: string, pool: seq<Play>)
    ensures Similarities(num, sv, sid, pool).Success?
        <==> forall j :: 0 <= j < |pool| && pool[j].mt20id != sid ==> Score(num, sv, pool[j]).Success?
    ensures Similarities(num, sv, sid, pool).Failure? ==>
              exists j :: && 0 <= j < |pool| && pool[j].mt20id != sid
                          && Score(num, sv, pool[j]) == Failure(Similarities(num, sv, sid, pool).error)
                          && forall i :: 0 <= i < j && pool[i].mt20id != sid ==> Score(num, sv, pool[i]).Success?
    decreases |pool|
  {
    if pool != [] {
      var n := |pool| - 1;
      SimilaritiesFailure(num, sv, sid, pool[..n]);
      assert forall j :: 0 <= j < n ==> pool[..n][j] == pool[j];
    }
  }

  // ---------------------------------------------------------------------------
  // What the kept play is

  /** Row `i` is eligible, scores at least as high as every eligible row, and higher than every earlier one. */
  ghost predicate IsBestRow(num: Numerics, sv: Vector, sid: string, pool: seq<Play>, i: int) {
    && 0 <= i < |pool|
    && pool[i].mt20id != sid
    && Score(num, sv, pool[i]).Success?
    && forall j :: 0 <= j < |pool| && pool[j].mt20id != sid ==>
         && Score(num, sv, pool[j]).Success?
         && Score(num, sv, pool[j]).value <= Score(num, sv, pool[i]).value
         && (j < i ==> Score(num, sv, pool[j]).value < Score(num, sv, pool[i]).value)
  }

  /** The kept play is the first pair of greatest similarity in the `similarities` list. */
  lemma BestMatchIsFirstBest(num: Numerics, s: SelectedPlay, pool: seq<Play>, p: Play)
    requires BestMatch(num, s, pool) == Success(Some(p))
    ensures num.decode(s.embedding).Some?
    ensures var sims := Similarities(num, num.decode(s.embedding).value, s.mt20id, pool);
            sims.Success? && sims.value != [] && p == sims.value[FirstBest(sims.value, SimilarityOf)].play
  {
    var sv := num.decode(s.embedding).value;
    var sims := Similarities(num, sv, s.mt20id, pool).value;
    var sorted := SortDescending(sims, SimilarityOf);
    assert |sorted| == |sims| by { assert |multiset(sorted)| == |multiset(sims)|; }
    assert sims != [];
    SortHeadIsFirstBest(sims, SimilarityOf);
    assert Take(sorted, 1)[0] == sorted[0];
  }

  /** The eligible row behind the first pair of greatest similarity is the best row. */
  lemma FirstBestIsBestRow(num: Numerics, sv: Vector, sid: string, pool: seq<Play>, k: nat)
    requires Similarities(num, sv, sid, pool).Success?
    requires IsFirstBest(Similarities(num, sv, sid, pool).value, SimilarityOf, k)
    ensures k < |Eligible(sid, pool)|
    ensures var i := Eligible(sid, pool)[k];
            i < |pool| && pool[i] == Similarities(num, sv, sid, pool).value[k].play && IsBestRow(num, sv, sid, pool, i)
  {
    var sims := Similarities(num, sv, sid, pool).value;
    var idx := Eligible(sid, pool);
    SimilaritiesSuccess(num, sv, sid, pool);
    EligibleOrdered(sid, pool);
    EligibleComplete(sid, pool);
    var i := idx[k];
    forall j | 0 <= j < |pool| && pool[j].mt20id != sid
      ensures && Score(num, sv, pool[j]).Success?
              && Score(num, sv, pool[j]).value <= Score(num, sv, pool[i]).value
              && (j < i ==> Score(num, sv, pool[j]).value < Score(num, sv, pool[i]).value)
    {
      var k' :| 0 <= k' < |idx| && idx[k'] == j;
      assert SimilarityOf(sims[k']) <= SimilarityOf(sims[k]);
      if j < i {
        assert k' < k;
        assert SimilarityOf(sims[k']) < SimilarityOf(sims[k]);
      }
    }
  }

  /** The kept play is a pool row other than the selected play itself, of greatest score, the earliest on ties. */
  lemma BestMatchChoice(num: Numerics, s: SelectedPlay, pool: seq<Play>, p: Play)
    requires BestMatch(num, s, pool) == Success(Some(p))
    ensures num.decode(s.embedding).Some?
    ensures exists i :: 0 <= i < |pool| && pool[i] == p && IsBestRow(num, num.decode(s.embedding).value, s.mt20id, pool, i)
  {
    BestMatchIsFirstBest(num, s, pool, p);
    var sv := num.decode(s.embedding).value;
    var sims := Similarities(num, sv, s.mt20id, pool).value;
    var k := FirstBest(sims, SimilarityOf);
    FirstBestIsBestRow(num, sv, s.mt20id, pool, k);
    var i := Eligible(s.mt20id, pool)[k];
    assert pool[i] == p && IsBestRow(num, sv, s.mt20id, pool, i);
  }

  /** A selected play gets no match exactly when its embedding decodes and no pool row has another id. */
  lemma BestMatchNone(num: Numerics, s: SelectedPlay, pool: seq<Play>)
    ensures BestMatch(num, s, pool) == Success(None)
        <==> num.decode(s.embedding).Some? && forall j :: 0 <= j < |pool| ==> pool[j].mt20id == s.mt20id
  {
    if num.decode(s.embedding).Some? {
      var sv := num.decode(s.embedding).value;
      SimilaritiesFailure(num, sv, s.mt20id, pool);
      var idx := Eligible(s.mt20id, pool);
      EligibleComplete(s.mt20id, pool);
      if Similarities(num, sv, s.mt20id, pool).Success? {
        var sims := Similarities(num, sv, s.mt20id, pool).value;
        SimilaritiesSuccess(num, sv, s.mt20id, pool);
        var sorted := SortDescending(sims, SimilarityOf);
        assert |sorted| == |sims| by { assert |multiset(sorted)| == |multiset(sims)|; }
        if forall j :: 0 <= j < |pool| ==> pool[j].mt20id == s.mt20id {
          assert |idx| == 0;
        } else {
          var j :| 0 <= j < |pool| && pool[j].mt20id != s.mt20id;
          assert j in idx;
        }
      } else if forall j :: 0 <= j < |pool| ==> pool[j].mt20id == s.mt20id {
        assert false;
      }
    }
  }

  // ---------------------------------------------------------------------------
  // Aggregation over the selected plays

  /** The outcome of matching each selected play against the pool, in selection order. */
  function Outcomes(num: Numerics, selected: seq<SelectedPlay>, pool: seq<Play>): (rs: seq<Result<Option<Play>>>)
    ensures |rs| == |selected|
    ensures forall i :: 0 <= i < |selected| ==> rs[i] == BestMatch(num, selected[i], pool)
  {
    seq(|selected|, i requires 0 <= i < |selected| => BestMatch(num, selected[i], pool))
  }

  /** Running steps in order under one catch-all: all their values, or the first failure. */
  function Collect<T>(rs: seq<Result<T>>): Result<seq<T>>
    decreases |rs|
  {
    if rs == [] then Success([])
    else
      match Collect(rs[..|rs| - 1])
      case Failure(e) => Failure(e)
      case Success(vs) =>
        match rs[|rs| - 1]
        case Failure(e) => Failure(e)
        case Success(v) => Success(vs + [v])
  }

  /** The kept play (if any) of each selected play, in order, or the first failure. */
  function Matches(num: Numerics, selected: seq<SelectedPlay>, pool: seq<Play>): Result<seq<Option<Play>>> {
    Collect(Outcomes(num, selected, pool))
  }

  predicate HasId(d: seq<Match>, id: string) {
    exists k :: 0 <= k < |d| && d[k].mt20id == id
  }

  /** The dictionary's values after the kept plays `ms` were offered in order, first writer winning. */
  function Dedup(ms: seq<Option<Play>>): seq<Match>
    decreases |ms|
  {
    if ms == [] then []
    else
      var d := Dedup(ms[..|ms| - 1]);
      match ms[|ms| - 1]
      case None => d
      case Some(p) => if HasId(d, p.mt20id) then d else d + [Project(p)]
  }

  /** What the route returns: the de-duplicated matches, or the failure that aborted it. */
  function Recommend(num: Numerics, selected: seq<SelectedPlay>, pool: seq<Play>): Result<seq<Match>> {
    match Matches(num, selected, pool)
    case Failure(e) => Failure(e)
    case Success(ms) => Success(Dedup(ms))
  }

  /** The insertion-ordered dictionary `keys`/`dict` holds exactly the entries `d`, in order. */
  ghost predicate Holds(keys: seq<string>, dict: map<string, Match>, d: seq<Match>) {
    && |keys| == |d|
    && (forall k :: 0 <= k < |keys| ==> keys[k] in dict && dict[keys[k]] == d[k] && d[k].mt20id == keys[k])
    && (forall id :: id in dict ==> HasId(d, id))
  }

  lemma HoldsHasId(keys: seq<string>, dict: map<string, Match>, d: seq<Match>)
    requires Holds(keys, dict, d)
    ensures forall id :: id in dict <==> HasId(d, id)
  {
    forall id | HasId(d, id)
      ensures id in dict
    {
      var k :| 0 <= k < |d| && d[k].mt20id == id;
      assert keys[k] == id;
    }
  }

  /** One more step: the values extend by its value, or the run stops at its failure. */
  lemma CollectStep<T>(rs: seq<Result<T>>, i: nat)
    requires i < |rs|
    ensures Collect(rs[..i + 1])
         == match Collect(rs[..i])
            case Failure(e) => Failure(e)
            case Success(vs) =>
              match rs[i]
              case Failure(e) => Failure(e)
              case Success(v) => Success(vs + [v])
  {
    assert rs[..i + 1][..i] == rs[..i];
  }

  /** Offering one more match to the dictionary. */
  lemma DedupStep(ms: seq<Option<Play>>, x: Option<Play>)
    ensures Dedup(ms + [x])
         == if x.Some? && !HasId(Dedup(ms), x.value.mt20id) then Dedup(ms) + [Project(x.value)] else Dedup(ms)
  {
    assert (ms + [x])[..|ms|] == ms;
  }

  lemma HoldsInsert(keys: seq<string>, dict: map<string, Match>, d: seq<Match>, x: Match)
    requires Holds(keys, dict, d) && x.mt20id !in dict
    ensures !HasId(d, x.mt20id)
    ensures Holds(keys + [x.mt20id], dict[x.mt20id := x], d + [x])
  {
    var d' := d + [x];
    assert d'[|d|] == x;
    forall id | id in dict[x.mt20id := x]
      ensures HasId(d', id)
    {
      if id != x.mt20id {
        var k :| 0 <= k < |d| && d[k].mt20id == id;
        assert d'[k] == d[k];
      }
    }
  }

  /** The loops of `user_select` in app.py: one nearest match per selected play, gathered first-writer-wins in insertion order. */
  method UserSelect(num: Numerics, selected: seq<SelectedPlay>, pool: seq<Play>) returns (r: Result<seq<Match>>)
    ensures r == Recommend(num, selected, pool)
    ensures r.Success? ==> |r.value| <= |selected|
    ensures r.Success? ==> forall k1, k2 :: 0 <= k1 < k2 < |r.value| ==> r.value[k1].mt20id != r.value[k2].mt20id
  {
    var keys: seq<string> := [];
    var dict: map<string, Match> := map[];
    ghost var ms: seq<Option<Play>> := [];
    ghost var outs := Outcomes(num, selected, pool);
    var i := 0;
    while i < |selected|
      invariant 0 <= i <= |selected|
      invariant Collect(outs[..i]) == Success(ms)
      invariant Holds(keys, dict, Dedup(ms))
    {
      var m := MatchSelected(num, selected[i], pool);
      CollectStep(outs, i);
      if m.Failure? {
        CollectFailureSticks(outs, i + 1);
        assert outs[..|outs|] == outs;
        return Failure(m.error);
      }
      DedupStep(ms, m.value);
      HoldsHasId(keys, dict, Dedup(ms));
      if m.value.Some? {
        var play := m.value.value;
        if play.mt20id !in dict {
          HoldsInsert(keys, dict, Dedup(ms), Project(play));
          dict := dict[play.mt20id := Project(play)];
          keys := keys + [play.mt20id];
        }
      }
      ms := ms + [m.value];
      i := i + 1;
    }
    assert outs[..|outs|] == outs;
    var values := seq(|keys|, k requires 0 <= k < |keys| => dict[keys[k]]);
    assert values == Dedup(ms);
    r := Success(values);
    RecommendProperties(num, selected, pool, values);
  }

  lemma {:induction false} CollectFailureSticks<T>(rs: seq<Result<T>>, n: nat)
    requires n <= |rs|
    requires Collect(rs[..n]).Failure?
    ensures Collect(rs) == Collect(rs[..n])
    decreases |rs|
  {
    if n < |rs| {
      var m := |rs| - 1;
      assert rs[..m][..n] == rs[..n];
      CollectFailureSticks(rs[..m], n);
    } else {
      assert rs[..n] == rs;
    }
  }

  /** A successful run holds, position by position, the value of each step. */
  lemma {:induction false} CollectSuccess<T>(rs: seq<Result<T>>)
    requires Collect(rs).Success?
    ensures |Collect(rs).value| == |rs|
    ensures forall i :: 0 <= i < |rs| ==> rs[i] == Success(Collect(rs).value[i])
    decreases |rs|
  {
    if rs != [] {
      var n := |rs| - 1;
      var init := rs[..n];
      CollectSuccess(init);
      var vs0 := Collect(init).value;
      var vs := Collect(rs).value;
      assert vs == vs0 + [rs[n].value];
      forall i | 0 <= i < |rs|
        ensures rs[i] == Success(vs[i])
      {
        if i < n {
          assert rs[i] == init[i] && vs[i] == vs0[i];
        }
      }
    }
  }

  /** A run fails exactly when some step fails, and then with the first failure. */
  lemma {:induction false} CollectFailure<T>(rs: seq<Result<T>>)
    ensures Collect(rs).Success? <==> forall i :: 0 <= i < |rs| ==> rs[i].Success?
    ensures Collect(rs).Failure? ==>
              exists i :: && 0 <= i < |rs| && rs[i] == Failure(Collect(rs).error)
                          && forall i' :: 0 <= i' < i ==> rs[i'].Success?
    decreases |rs|
  {
    if rs != [] {
      var n := |rs| - 1;
      var init := rs[..n];
      CollectFailure(init);
      assert forall i :: 0 <= i < n ==> init[i] == rs[i];
      if Collect(init).Failure? {
        var i :| && 0 <= i < n && init[i] == Failure(Collect(init).error)
                 && forall i' :: 0 <= i' < i ==> init[i'].Success?;
        assert rs[i] == Failure(Collect(rs).error);
      }
    }
  }

  /** The match kept for a selected play, or None when it has none or its matching failed. */
  function Picked(num: Numerics, s: SelectedPlay, pool: seq<Play>): Option<Play> {
    match BestMatch(num, s, pool)
    case Success(m) => m
    case Failure(_) => None
  }

  /** The matches of all selected plays, in order. */
  function Picks(num: Numerics, selected: seq<SelectedPlay>, pool: seq<Play>): (ms: seq<Option<Play>>)
    ensures |ms| == |selected|
  {
    seq(|selected|, i requires 0 <= i < |selected| => Picked(num, selected[i], pool))
  }

  /** A successful pass holds, position by position, the best match of each selected play. */
  lemma MatchesSuccess(num: Numerics, selected: seq<SelectedPlay>, pool: seq<Play>)
    requires Matches(num, selected, pool).Success?
    ensures var ms := Matches(num, selected, pool).value;
            |ms| == |selected| && forall i :: 0 <= i < |selected| ==> BestMatch(num, selected[i], pool) == Success(ms[i])
  {
    CollectSuccess(Outcomes(num, selected, pool));
  }

  lemma MatchesArePicks(num: Numerics, selected: seq<SelectedPlay>, pool: seq<Play>)
    requires Matches(num, selected, pool).Success?
    ensures Matches(num, selected, pool).value == Picks(num, selected, pool)
  {
    MatchesSuccess(num, selected, pool);
  }

  /** The pass fails exactly when some selected play's matching fails, and then with the first such failure. */
  lemma MatchesFailure(num: Numerics, selected: seq<SelectedPlay>, pool: seq<Play>)
    ensures Matches(num, selected, pool).Success?
        <==> forall i :: 0 <= i < |selected| ==> BestMatch(num, selected[i], pool).Success?
    ensures Matches(num, selected, pool).Failure? ==>
              exists i :: && 0 <= i < |selected|
                          && BestMatch(num, selected[i], pool) == Failure(Matches(num, selected, pool).error)
                          && forall i' :: 0 <= i' < i ==> BestMatch(num, selected[i'], pool).Success?
  {
    CollectFailure(Outcomes(num, selected, pool));
  }

  // ---------------------------------------------------------------------------
  // Properties of first-writer-wins de-duplication

  /** `ms[i]` is a match for `id` and no earlier entry of `ms` is. */
  ghost predicate FirstMatchAt(ms: seq<Option<Play>>, i: int, id: string) {
    && 0 <= i < |ms|
    && ms[i].Some? && ms[i].value.mt20id == id
    && forall i' :: 0 <= i' < i ==> !(ms[i'].Some? && ms[i'].value.mt20id == id)
  }

  /** Unfolds `Dedup` at its last offered match. */
  lemma DedupLast(ms: seq<Option<Play>>)
    requires ms != []
    ensures var d0 := Dedup(ms[..|ms| - 1]);
            var x := ms[|ms| - 1];
            Dedup(ms) == if x.Some? && !HasId(d0, x.value.mt20id) then d0 + [Project(x.value)] else d0
  {
  }

  /** At most one entry per match offered. */
  lemma {:induction false} DedupLength(ms: seq<Option<Play>>)
    ensures |Dedup(ms)| <= |ms|
    decreases |ms|
  {
    if ms != [] {
      DedupLength(ms[..|ms| - 1]);
    }
  }

  /** No id occurs twice. */
  lemma {:induction false} DedupDistinct(ms: seq<Option<Play>>)
    ensures forall k1, k2 :: 0 <= k1 < k2 < |Dedup(ms)| ==> Dedup(ms)[k1].mt20id != Dedup(ms)[k2].mt20id
    decreases |ms|
  {
    if ms != [] {
      var d0 := Dedup(ms[..|ms| - 1]);
      DedupDistinct(ms[..|ms| - 1]);
      DedupLast(ms);
    }
  }

  /** The id of every match offered is present. */
  lemma {:induction false} DedupComplete(ms: seq<Option<Play>>)
    ensures forall i :: 0 <= i < |ms| && ms[i].Some? ==> HasId(Dedup(ms), ms[i].value.mt20id)
    decreases |ms|
  {
    if ms != [] {
      var n := |ms| - 1;
      var init := ms[..n];
      var d0 := Dedup(init);
      var d := Dedup(ms);
      DedupComplete(init);
      DedupLast(ms);
      assert forall k :: 0 <= k < |d0| ==> d[k] == d0[k];
      forall i | 0 <= i < |ms| && ms[i].Some?
        ensures HasId(d, ms[i].value.mt20id)
      {
        if i < n {
          assert init[i] == ms[i];
          var k :| 0 <= k < |d0| && d0[k].mt20id == ms[i].value.mt20id;
          assert d[k].mt20id == ms[i].value.mt20id;
        } else if !HasId(d0, ms[n].value.mt20id) {
          assert d[|d0|].mt20id == ms[n].value.mt20id;
        } else {
          assert d == d0;
        }
      }
    }
  }

  lemma FirstMatchAtPrefix(ms: seq<Option<Play>>, n: nat, i: int, id: string)
    requires n <= |ms| && 0 <= i < n
    ensures FirstMatchAt(ms, i, id) <==> FirstMatchAt(ms[..n], i, id)
  {
  }

  /** Each entry is the projection of the first match offered with its id (first writer wins). */
  lemma {:induction false} DedupFirstWriter(ms: seq<Option<Play>>)
    ensures forall k :: 0 <= k < |Dedup(ms)| ==>
              exists i :: FirstMatchAt(ms, i, Dedup(ms)[k].mt20id) && Dedup(ms)[k] == Project(ms[i].value)
    decreases |ms|
  {
    if ms != [] {
      var n := |ms| - 1;
      var init := ms[..n];
      var d0 := Dedup(init);
      var d := Dedup(ms);
      DedupFirstWriter(init);
      DedupComplete(init);
      DedupLast(ms);
      forall k | 0 <= k < |Dedup(ms)|
        ensures exists i :: FirstMatchAt(ms, i, Dedup(ms)[k].mt20id) && Dedup(ms)[k] == Project(ms[i].value)
      {
        if k < |d0| {
          assert d[k] == d0[k];
          var i :| FirstMatchAt(init, i, d0[k].mt20id) && d0[k] == Project(init[i].value);
          FirstMatchAtPrefix(ms, n, i, d0[k].mt20id);
          assert ms[i] == init[i];
          assert FirstMatchAt(ms, i, d[k].mt20id) && d[k] == Project(ms[i].value);
        } else {
          var p := ms[n].value;
          assert d[k] == Project(p) && !HasId(d0, p.mt20id);
          forall i' | 0 <= i' < n
            ensures !(ms[i'].Some? && ms[i'].value.mt20id == p.mt20id)
          {
            assert init[i'] == ms[i'];
          }
          assert FirstMatchAt(ms, n, d[k].mt20id) && d[k] == Project(ms[n].value);
        }
      }
    } else {
      assert Dedup(ms) == [];
    }
  }

  /** Entries follow the order in which their ids were first matched. */
  lemma {:induction false} DedupOrder(ms: seq<Option<Play>>)
    ensures forall k1, k2, i1, i2 ::
              0 <= k1 < k2 < |Dedup(ms)| && FirstMatchAt(ms, i1, Dedup(ms)[k1].mt20id)
              && FirstMatchAt(ms, i2, Dedup(ms)[k2].mt20id)
              ==> i1 < i2
    decreases |ms|
  {
    if ms != [] {
      var n := |ms| - 1;
      var init := ms[..n];
      var d0 := Dedup(init);
      var d := Dedup(ms);
      DedupOrder(init);
      DedupFirstWriter(init);
      DedupComplete(init);
      DedupLast(ms);
      // An id present before the last offer was first matched before position n.
      forall k, i | 0 <= k < |d0| && FirstMatchAt(ms, i, d0[k].mt20id)
        ensures i < n && FirstMatchAt(init, i, d0[k].mt20id)
      {
        var i0 :| FirstMatchAt(init, i0, d0[k].mt20id) && d0[k] == Project(init[i0].value);
        FirstMatchAtPrefix(ms, n, i0, d0[k].mt20id);
        if i == n {
          assert false;
        }
        FirstMatchAtPrefix(ms, n, i, d0[k].mt20id);
      }
      forall k1, k2, i1, i2 |
        0 <= k1 < k2 < |d| && FirstMatchAt(ms, i1, d[k1].mt20id) && FirstMatchAt(ms, i2, d[k2].mt20id)
        ensures i1 < i2
      {
        assert d[k1] == d0[k1];
        if k2 < |d0| {
          assert d[k2] == d0[k2];
        } else {
          var p := ms[n].value;
          assert d[k2] == Project(p) && !HasId(d0, p.mt20id);
          forall i' | 0 <= i' < n
            ensures !(ms[i'].Some? && ms[i'].value.mt20id == p.mt20id)
          {
            assert init[i'] == ms[i'];
          }
          assert i1 < n <= i2;
        }
      }
    }
  }

  /** Every play kept for a selected play is a row of the pool. */
  lemma PicksFromPool(num: Numerics, selected: seq<SelectedPlay>, pool: seq<Play>)
    ensures var ms := Picks(num, selected, pool);
            forall i :: 0 <= i < |ms| && ms[i].Some? ==> exists j :: 0 <= j < |pool| && pool[j] == ms[i].value
  {
    var ms := Picks(num, selected, pool);
    forall i | 0 <= i < |ms| && ms[i].Some?
      ensures exists j :: 0 <= j < |pool| && pool[j] == ms[i].value
    {
      assert BestMatch(num, selected[i], pool) == Success(ms[i]);
      BestMatchChoice(num, selected[i], pool, ms[i].value);
    }
  }

  /**
   On success the route's list has pairwise distinct ids, at most one entry per selected play;
   each entry is the display projection of the match of the first selected play matched to its
   id; every selected play's match is represented; entries follow first-match order; and every
   entry is the projection of a pool row.
   */
  lemma RecommendProperties(num: Numerics, selected: seq<SelectedPlay>, pool: seq<Play>, out: seq<Match>)
    requires Recommend(num, selected, pool) == Success(out)
    ensures var ms := Picks(num, selected, pool);
            && out == Dedup(ms)
            && |out| <= |selected|
            && (forall k1, k2 :: 0 <= k1 < k2 < |out| ==> out[k1].mt20id != out[k2].mt20id)
            && (forall k :: 0 <= k < |out| ==>
                  exists i :: FirstMatchAt(ms, i, out[k].mt20id) && out[k] == Project(ms[i].value))
            && (forall i :: 0 <= i < |ms| && ms[i].Some? ==> HasId(out, ms[i].value.mt20id))
            && (forall k1, k2, i1, i2 ::
                  0 <= k1 < k2 < |out| && FirstMatchAt(ms, i1, out[k1].mt20id) && FirstMatchAt(ms, i2, out[k2].mt20id)
                  ==> i1 < i2)
            && (forall k :: 0 <= k < |out| ==> exists j :: 0 <= j < |pool| && out[k] == Project(pool[j]))
  {
    MatchesArePicks(num, selected, pool);
    var ms := Picks(num, selected, pool);
    DedupLength(ms);
    DedupDistinct(ms);
    DedupFirstWriter(ms);
    DedupComplete(ms);
    DedupOrder(ms);
    PicksFromPool(num, selected, pool);
    forall k | 0 <= k < |out|
      ensures exists j :: 0 <= j < |pool| && out[k] == Project(pool[j])
    {
      var i :| FirstMatchAt(ms, i, out[k].mt20id) && out[k] == Project(ms[i].value);
      var j :| 0 <= j < |pool| && pool[j] == ms[i].value;
    }
  }

  /** The route fails exactly when some selected play's matching fails, and then with the first such failure. */
  lemma RecommendFailure(num: Numerics, selected: seq<SelectedPlay>, pool: seq<Play>)
    ensures Recommend(num, selected, pool).Failure?
        <==> exists i :: 0 <= i < |selected| && BestMatch(num, selected[i], pool).Failure?
    ensures Recommend(num, selected, pool).Failure? ==>
              exists i :: && 0 <= i < |selected|
                          && BestMatch(num, selected[i], pool) == Failure(Recommend(num, selected, pool).error)
                          && forall i' :: 0 <= i' < i ==> BestMatch(num, selected[i'], pool).Success?
  {
    MatchesFailure(num, selected, pool);
  }
}
