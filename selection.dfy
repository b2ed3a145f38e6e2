/**
 * Choosing the winner: `sorted(candidates, key=lambda x: x['final_score'])[0]`. Python's sort is
 * stable, so among equally scored candidates the one appended first comes out in front.
 */
module Selection {
  import opened GeoJson

  /** One `{'final_score': ..., 'route': ...}` entry of the candidate list. */
  datatype Candidate = Candidate(finalScore: real, route: Document)

  predicate SortedByScore(cs: seq<Candidate>)
  {
    forall i, j :: 0 <= i < j < |cs| ==> cs[i].finalScore <= cs[j].finalScore
  }

  /** Puts `c` in front of the first entry scoring at least as high, so after every entry scoring lower. */
  function Insert(c: Candidate, sorted: seq<Candidate>): (r: seq<Candidate>)
    ensures multiset(r) == multiset(sorted) + multiset{c}
    ensures SortedByScore(sorted) ==> SortedByScore(r)
    ensures r[0] == if sorted == [] || c.finalScore <= sorted[0].finalScore then c else sorted[0]
  {
    if sorted == [] || c.finalScore <= sorted[0].finalScore then [c] + sorted
    else
      var tail := Insert(c, sorted[1..]);
      assert sorted == [sorted[0]] + sorted[1..];
      [sorted[0]] + tail
  }

  /** A stable sort by score: entries are taken from the back and each is inserted before its equals. */
  function SortByScore(cs: seq<Candidate>): (r: seq<Candidate>)
    ensures multiset(r) == multiset(cs)
    ensures SortedByScore(r)
    ensures |r| == |cs|
  {
    if cs == [] then []
    else
      assert cs == [cs[0]] + cs[1..];
      Insert(cs[0], SortByScore(cs[1..]))
  }

  /** The index of the first entry whose score is the lowest. */
  function FirstMinimum(cs: seq<Candidate>): (i: nat)
    requires |cs| > 0
    ensures i < |cs|
    ensures forall j :: 0 <= j < |cs| ==> cs[i].finalScore <= cs[j].finalScore
    ensures forall j :: 0 <= j < i ==> cs[j].finalScore > cs[i].finalScore
  {
    if |cs| == 1 then 0
    else
      var k := 1 + FirstMinimum(cs[1..]);
      if cs[0].finalScore <= cs[k].finalScore then 0 else k
  }

  /** The head of the stable sort is the first of the lowest-scoring entries. */
  lemma {:induction false} SortedHeadIsFirstMinimum(cs: seq<Candidate>)
    requires |cs| > 0
    ensures SortByScore(cs)[0] == cs[FirstMinimum(cs)]
  {
    if |cs| > 1 {
      SortedHeadIsFirstMinimum(cs[1..]);
    }
  }
}
