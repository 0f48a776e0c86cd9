/** `FaceRecognitionService`'s matching rules. The cosine distance between two
    embeddings is a parameter `dist`; the embeddings themselves are opaque. */
module RecognitionService {
  import opened Common

  const UnknownName := "Unknown"
  /** `rec_config.get('similarity_threshold', 0.6)` when the key is absent. */
  const DefaultSimilarityThreshold: real := 0.6

  /** A registered student as `find_match` reads it. */
  datatype Candidate<E> = Candidate(name: string, embedding: Option<E>)

  /** `min_distance`: a distance, or the `float('inf')` it starts from. */
  datatype Dist = Inf | Fin(d: real)

  /** `1 - min_distance`: minus infinity when no candidate was compared. */
  datatype Similarity = NegInf | Sim(value: real)

  predicate Less(a: Dist, b: Dist)
  {
    match (a, b)
    case (Fin(x), Fin(y)) => x < y
    case (Fin(_), Inf) => true
    case (Inf, _) => false
  }

  /** The distance a candidate is compared at; a skipped one counts as infinite. */
  function DistanceTo<E>(e: E, c: Candidate<E>, dist: (E, E) -> real): Dist
  {
    if c.embedding.Some? then Fin(dist(e, c.embedding.value)) else Inf
  }

  /** `threshold if threshold is not None else self.similarity_threshold` */
  function EffectiveThreshold(threshold: Option<real>, configured: real): (t: real)
    ensures threshold.Some? ==> t == threshold.value
    ensures threshold.None? ==> t == configured
  {
    if threshold.Some? then threshold.value else configured
  }

  predicate HasCandidate<E>(s: seq<Candidate<E>>)
  {
    exists j :: 0 <= j < |s| && s[j].embedding.Some?
  }

  /** Candidate `i` has an embedding, is strictly nearer than every candidate
      before it and no farther than every candidate after it. */
  predicate FirstNearest<E>(e: E, s: seq<Candidate<E>>, dist: (E, E) -> real, i: int)
  {
    && 0 <= i < |s| && s[i].embedding.Some?
    && (forall j :: 0 <= j < i ==> Less(DistanceTo(e, s[i], dist), DistanceTo(e, s[j], dist)))
    && (forall j :: i < j < |s| ==> !Less(DistanceTo(e, s[j], dist), DistanceTo(e, s[i], dist)))
  }

  /** The candidate a left-to-right scan with a strict `<` ends on. */
  function Nearest<E>(e: E, s: seq<Candidate<E>>, dist: (E, E) -> real): (r: Option<nat>)
    ensures r.None? <==> !HasCandidate(s)
    ensures r.Some? ==> FirstNearest(e, s, dist, r.value)
  {
    if s == [] then None
    else
      var n := Nearest(e, s[..|s| - 1], dist);
      var last := |s| - 1;
      if s[last].embedding.None? then
        assert forall j :: 0 <= j < last ==> s[..last][j] == s[j];
        n
      else if n.None? || Less(DistanceTo(e, s[last], dist), DistanceTo(e, s[n.value], dist)) then
        assert forall j :: 0 <= j < last ==> s[..last][j] == s[j];
        Some(last)
      else
        assert forall j :: 0 <= j < last ==> s[..last][j] == s[j];
        n
  }

  /** At most one candidate is the first nearest. */
  lemma FirstNearestUnique<E>(e: E, s: seq<Candidate<E>>, dist: (E, E) -> real, i: int, k: int)
    requires FirstNearest(e, s, dist, i) && FirstNearest(e, s, dist, k)
    ensures i == k
  {
  }

  /** What `find_match` returns: the first nearest candidate's name when its
      distance is under the threshold, and one minus that distance. */
  function Match<E>(newEmbedding: Option<E>, students: seq<Candidate<E>>, threshold: real, dist: (E, E) -> real): (m: (string, Similarity))
  {
    if newEmbedding.None? then (UnknownName, Sim(0.0))
    else
      match Nearest(newEmbedding.value, students, dist)
      case None => (UnknownName, NegInf)
      case Some(i) =>
        var d := dist(newEmbedding.value, students[i].embedding.value);
        (if d < threshold then students[i].name else UnknownName, Sim(1.0 - d))
  }

  /** The match in terms of the inputs alone: nothing without an embedding or
      without candidates; otherwise the first nearest candidate, named only
      under a strict threshold, with similarity one minus its distance. */
  lemma MatchSpec<E>(newEmbedding: Option<E>, students: seq<Candidate<E>>, threshold: real, dist: (E, E) -> real)
    ensures var m := Match(newEmbedding, students, threshold, dist);
      && (newEmbedding.None? ==> m == (UnknownName, Sim(0.0)))
      && (newEmbedding.Some? && !HasCandidate(students) ==> m == (UnknownName, NegInf))
      && (newEmbedding.Some? && HasCandidate(students) ==>
            exists i :: FirstNearest(newEmbedding.value, students, dist, i)
              && var d := dist(newEmbedding.value, students[i].embedding.value);
              && m.1 == Sim(1.0 - d)
              && m.0 == (if d < threshold then students[i].name else UnknownName))
  {
    if newEmbedding.Some? && HasCandidate(students) {
      var i := Nearest(newEmbedding.value, students, dist).value;
      assert FirstNearest(newEmbedding.value, students, dist, i);
    }
  }

  /** `find_match`: one pass over the students, keeping the strictly smaller
      distance and its name. */
  method FindMatch<E>(newEmbedding: Option<E>, students: seq<Candidate<E>>, threshold: Option<real>,
                      configured: real, dist: (E, E) -> real)
    returns (name: string, similarity: Similarity)
    ensures (name, similarity) == Match(newEmbedding, students, EffectiveThreshold(threshold, configured), dist)
  {
    if newEmbedding.None? {
      return UnknownName, Sim(0.0);
    }
    var e := newEmbedding.value;
    var limit := EffectiveThreshold(threshold, configured);
    var minDistance := Inf;
    var matched := UnknownName;
    var k := 0;
    while k < |students|
      invariant 0 <= k <= |students|
      invariant Scanned(e, students, dist, k, minDistance, matched)
    {
      NearestStep(e, students, dist, k);
      if students[k].embedding.Some? {
        var d := Fin(dist(e, students[k].embedding.value));
        if Less(d, minDistance) {
          minDistance := d;
          matched := students[k].name;
        }
      }
      k := k + 1;
    }
    assert students[..k] == students;
    if minDistance.Fin? && minDistance.d < limit {
      name := matched;
    } else {
      name := UnknownName;
    }
    similarity := if minDistance.Fin? then Sim(1.0 - minDistance.d) else NegInf;
  }

  /** After `k` students the scan holds the first nearest one's distance and
      name, or infinity and "Unknown" when none had an embedding. */
  ghost predicate Scanned<E>(e: E, s: seq<Candidate<E>>, dist: (E, E) -> real, k: nat, minDistance: Dist, matched: string)
    requires k <= |s|
  {
    match Nearest(e, s[..k], dist)
    case None => minDistance == Inf && matched == UnknownName
    case Some(i) => i < k && minDistance == DistanceTo(e, s[i], dist) && matched == s[i].name
  }

  /** One more student changes the nearest one only when it is strictly nearer. */
  lemma NearestStep<E>(e: E, s: seq<Candidate<E>>, dist: (E, E) -> real, k: nat)
    requires k < |s|
    ensures var n := Nearest(e, s[..k], dist);
      Nearest(e, s[..k + 1], dist) ==
        if s[k].embedding.Some? && (n.None? || Less(DistanceTo(e, s[k], dist), DistanceTo(e, s[n.value], dist)))
        then Some(k) else n
  {
    assert s[..k + 1][..k] == s[..k];
  }

  /** `compare_embeddings`: false when either side is missing. */
  function CompareEmbeddings<E>(a: Option<E>, b: Option<E>, threshold: Option<real>, configured: real,
                                dist: (E, E) -> real): (r: bool)
    ensures r ==> a.Some? && b.Some?
  {
    a.Some? && b.Some? && dist(a.value, b.value) < EffectiveThreshold(threshold, configured)
  }

  /** `find_match` names a student exactly when some student passes
      `compare_embeddings` at the same threshold; the one it names does. */
  lemma MatchAgreesWithCompare<E>(e: E, students: seq<Candidate<E>>, threshold: Option<real>, configured: real,
                                  dist: (E, E) -> real)
    ensures var m := Match(Some(e), students, EffectiveThreshold(threshold, configured), dist);
      var i := Nearest(e, students, dist);
      && ((exists j :: 0 <= j < |students| && CompareEmbeddings(Some(e), students[j].embedding, threshold, configured, dist))
            <==> i.Some? && CompareEmbeddings(Some(e), students[i.value].embedding, threshold, configured, dist))
      && (i.Some? && CompareEmbeddings(Some(e), students[i.value].embedding, threshold, configured, dist) ==> m.0 == students[i.value].name)
      && (!(i.Some? && CompareEmbeddings(Some(e), students[i.value].embedding, threshold, configured, dist)) ==> m.0 == UnknownName)
  {
    var limit := EffectiveThreshold(threshold, configured);
    var i := Nearest(e, students, dist);
    if j :| 0 <= j < |students| && CompareEmbeddings(Some(e), students[j].embedding, threshold, configured, dist) {
      assert HasCandidate(students);
      var n := i.value;
      if j != n {
        assert !Less(DistanceTo(e, students[j], dist), DistanceTo(e, students[n], dist));
      }
    }
    if i.Some? {
      var n := i.value;
      var _ := Match(Some(e), students, limit, dist);
      assert Match(Some(e), students, limit, dist).0 ==
        (if dist(e, students[n].embedding.value) < limit then students[n].name else UnknownName);
    }
  }

  /** A name other than "Unknown" always belongs to a student with an embedding. */
  lemma MatchedNameIsRegistered<E>(e: Option<E>, students: seq<Candidate<E>>, threshold: real, dist: (E, E) -> real)
    requires Match(e, students, threshold, dist).0 != UnknownName
    ensures exists i :: 0 <= i < |students| && students[i].embedding.Some?
                        && students[i].name == Match(e, students, threshold, dist).0
  {
    var i := Nearest(e.value, students, dist).value;
    assert students[i].name == Match(e, students, threshold, dist).0;
  }
}
