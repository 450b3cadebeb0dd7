/** The genetic-algorithm population of ase/ga/population.py: a bounded list
    of candidates kept sorted by raw score, best first, with no two members
    that the comparator finds alike. The database connection, the
    comparator's `looks_like` and the roulette-wheel draws are inputs. */
module Population {
  import opened Wrappers

  /** A relaxed candidate: its `confid` and its raw score. */
  datatype Candidate = Candidate(confid: int, score: real)

  /** A population member, with `info['looks_like']`: how many candidates
      in the database it resembles. */
  datatype Member = Member(cand: Candidate, looksLike: nat)

  /** `comparator.looks_like(a, b)`. */
  type Comparator = (Candidate, Candidate) -> bool

  function CandidateScore(c: Candidate): real { c.score }

  function MemberScore(m: Member): real { m.cand.score }

  // ---------------------------------------------------------------------
  // `count_looks_like`

  /** Whether b counts towards the resemblance count of a. */
  predicate Resembles(a: Candidate, b: Candidate, looks: Comparator)
  {
    a.confid != b.confid && looks(a, b)
  }

  /** How many candidates a resembles, not counting any with its own
      `confid`. */
  function CountLooksLike(a: Candidate, all: seq<Candidate>, looks: Comparator): (n: nat)
    ensures n <= |all|
    ensures n == 0 <==> forall k :: 0 <= k < |all| ==> !Resembles(a, all[k], looks)
    ensures n == |all| <==> forall k :: 0 <= k < |all| ==> Resembles(a, all[k], looks)
  {
    if |all| == 0 then 0
    else
      var rest := CountLooksLike(a, all[..|all| - 1], looks);
      assert forall k :: 0 <= k < |all| - 1 ==> all[..|all| - 1][k] == all[k];
      rest + if Resembles(a, all[|all| - 1], looks) then 1 else 0
  }

  /** Counting over two lists adds up. */
  lemma {:induction false} CountLooksLikeAppend(a: Candidate, xs: seq<Candidate>, ys: seq<Candidate>, looks: Comparator)
    ensures CountLooksLike(a, xs + ys, looks) == CountLooksLike(a, xs, looks) + CountLooksLike(a, ys, looks)
    decreases |ys|
  {
    if |ys| > 0 {
      var init := ys[..|ys| - 1];
      assert (xs + ys)[..|xs + ys| - 1] == xs + init;
      assert (xs + ys)[|xs + ys| - 1] == ys[|ys| - 1];
      CountLooksLikeAppend(a, xs, init, looks);
    } else {
      assert xs + ys == xs;
    }
  }

  /** A candidate never counts itself, nor another with its `confid`. */
  lemma {:induction false} SkipsOwnConfid(a: Candidate, b: Candidate, looks: Comparator)
    requires b.confid == a.confid
    ensures CountLooksLike(a, [b], looks) == 0
  {
  }

  // ---------------------------------------------------------------------
  // Sorting by raw score, best first

  predicate DescendingBy<T>(s: seq<T>, key: T -> real)
  {
    forall i, j :: 0 <= i < j < |s| ==> key(s[i]) >= key(s[j])
  }

  /** Inserting x into a descending list in front of the first element that
      does not beat it. */
  function InsertDesc<T>(x: T, s: seq<T>, key: T -> real): (r: seq<T>)
    requires DescendingBy(s, key)
    ensures DescendingBy(r, key)
    ensures multiset(r) == multiset(s) + multiset{x}
    ensures |r| > 0 && (key(r[0]) == key(x) || (|s| > 0 && r[0] == s[0]))
  {
    if |s| == 0 then [x]
    else if key(s[0]) <= key(x) then
      ConsDescending(x, s, key);
      [x] + s
    else
      TailDescending(s, key);
      var rest := InsertDesc(x, s[1..], key);
      ConsDescending(s[0], rest, key);
      assert s == [s[0]] + s[1..];
      [s[0]] + rest
  }

  /** An element no smaller than the head of a descending list can go in
      front of it. */
  lemma {:induction false} ConsDescending<T>(y: T, r: seq<T>, key: T -> real)
    requires DescendingBy(r, key) && (|r| > 0 ==> key(r[0]) <= key(y))
    ensures DescendingBy([y] + r, key)
  {
    var p := [y] + r;
    forall i, j | 0 <= i < j < |p|
      ensures key(p[i]) >= key(p[j])
    {
      assert p[j] == r[j - 1];
      if i > 0 {
        assert p[i] == r[i - 1];
      } else if j > 1 {
        assert key(r[0]) >= key(r[j - 1]);
      }
    }
  }

  /** The tail of a descending list is descending. */
  lemma {:induction false} TailDescending<T>(s: seq<T>, key: T -> real)
    requires |s| > 0 && DescendingBy(s, key)
    ensures DescendingBy(s[1..], key)
  {
    var t := s[1..];
    forall i, j | 0 <= i < j < |t|
      ensures key(t[i]) >= key(t[j])
    {
      assert t[i] == s[i + 1] && t[j] == s[j + 1];
    }
  }

  /** `list.sort(key=..., reverse=True)`: a stable sort, best first. */
  function SortDesc<T>(s: seq<T>, key: T -> real): (r: seq<T>)
    ensures DescendingBy(r, key)
    ensures multiset(r) == multiset(s)
    ensures |r| == |s|
  {
    if |s| == 0 then []
    else
      assert s == [s[0]] + s[1..];
      InsertDesc(s[0], SortDesc(s[1..], key), key)
  }

  /** Sorting a list that is already best first changes nothing. */
  lemma {:induction false} SortSorted<T>(s: seq<T>, key: T -> real)
    requires DescendingBy(s, key)
    ensures SortDesc(s, key) == s
    decreases |s|
  {
    if |s| > 0 {
      var t := s[1..];
      TailDescending(s, key);
      SortSorted(t, key);
      assert |t| == 0 || key(t[0]) <= key(s[0]) by {
        if |t| > 0 {
          assert t[0] == s[1];
        }
      }
      assert SortDesc(s, key) == InsertDesc(s[0], SortDesc(t, key), key) by {
        assert s[1..] == t;
      }
      InsertFront(s[0], t, key);
      assert [s[0]] + t == s;
    }
  }

  /** An element no smaller than the head is inserted in front. */
  lemma {:induction false} InsertFront<T>(x: T, t: seq<T>, key: T -> real)
    requires DescendingBy(t, key) && (|t| == 0 || key(t[0]) <= key(x))
    ensures InsertDesc(x, t, key) == [x] + t
  {
    if |t| == 0 {
      assert [x] + t == [x];
    }
  }

  // ---------------------------------------------------------------------
  // `__initialize_pop__`

  /** Whether some earlier pick resembles c. */
  predicate LooksLikeAny(picked: seq<Candidate>, c: Candidate, looks: Comparator)
  {
    exists m :: 0 <= m < |picked| && looks(picked[m], c)
  }

  /** What the fill loop keeps after looking at the first i sorted
      candidates: the picks are sorted candidates, best first, none
      resembling an earlier pick, none beaten by a candidate still to come,
      and every candidate looked at was taken or resembles a pick. */
  predicate Filled(sorted: seq<Candidate>, picked: seq<Candidate>, i: nat, looks: Comparator)
  {
    i <= |sorted|
    && DescendingBy(picked, CandidateScore)
    && (|picked| > 0 ==> forall k :: i <= k < |sorted| ==> sorted[k].score <= picked[|picked| - 1].score)
    && (forall a, b :: 0 <= a < b < |picked| ==> !looks(picked[a], picked[b]))
    && (forall k :: 0 <= k < |picked| ==> picked[k] in sorted)
    && (forall k :: 0 <= k < i ==> sorted[k] in picked || LooksLikeAny(picked, sorted[k], looks))
  }

  /** Taking the next candidate when no pick resembles it. */
  lemma {:induction false} FillTake(sorted: seq<Candidate>, picked: seq<Candidate>, i: nat, looks: Comparator)
    requires DescendingBy(sorted, CandidateScore)
    requires Filled(sorted, picked, i, looks) && i < |sorted|
    requires !LooksLikeAny(picked, sorted[i], looks)
    ensures Filled(sorted, picked + [sorted[i]], i + 1, looks)
  {
    var c := sorted[i];
    var p := picked + [c];
    TakeKeepsApart(picked, c, looks);
    TakeKeepsCovered(sorted, picked, i, looks);
    TakeKeepsOrder(sorted, picked, i);
  }

  /** Taking candidate i keeps the picks best first, drawn from the sorted
      candidates, and unbeaten by the candidates after i. */
  lemma {:induction false} TakeKeepsOrder(sorted: seq<Candidate>, picked: seq<Candidate>, i: nat)
    requires DescendingBy(sorted, CandidateScore) && i < |sorted|
    requires DescendingBy(picked, CandidateScore)
    requires |picked| > 0 ==> forall k :: i <= k < |sorted| ==> sorted[k].score <= picked[|picked| - 1].score
    requires forall k :: 0 <= k < |picked| ==> picked[k] in sorted
    ensures var p := picked + [sorted[i]];
      && DescendingBy(p, CandidateScore)
      && (forall k :: i + 1 <= k < |sorted| ==> sorted[k].score <= p[|p| - 1].score)
      && (forall k :: 0 <= k < |p| ==> p[k] in sorted)
  {
    var p := picked + [sorted[i]];
    assert forall k :: 0 <= k < |picked| ==> p[k] == picked[k];
  }

  /** A candidate no pick resembles can join without two picks resembling
      each other. */
  lemma {:induction false} TakeKeepsApart(picked: seq<Candidate>, c: Candidate, looks: Comparator)
    requires forall a, b :: 0 <= a < b < |picked| ==> !looks(picked[a], picked[b])
    requires !LooksLikeAny(picked, c, looks)
    ensures var p := picked + [c];
      forall a, b :: 0 <= a < b < |p| ==> !looks(p[a], p[b])
  {
    var p := picked + [c];
    forall a, b | 0 <= a < b < |p| ensures !looks(p[a], p[b]) {
      if b == |picked| {
        assert p[a] == picked[a];
      } else {
        assert p[a] == picked[a] && p[b] == picked[b];
      }
    }
  }

  /** After taking candidate i, every candidate up to i is taken or
      resembles a pick. */
  lemma {:induction false} TakeKeepsCovered(sorted: seq<Candidate>, picked: seq<Candidate>, i: nat, looks: Comparator)
    requires i < |sorted|
    requires forall k :: 0 <= k < i ==> sorted[k] in picked || LooksLikeAny(picked, sorted[k], looks)
    ensures var p := picked + [sorted[i]];
      forall k :: 0 <= k < i + 1 ==> sorted[k] in p || LooksLikeAny(p, sorted[k], looks)
  {
    var p := picked + [sorted[i]];
    forall k | 0 <= k < i + 1 ensures sorted[k] in p || LooksLikeAny(p, sorted[k], looks) {
      if k < i && sorted[k] !in picked {
        var m :| 0 <= m < |picked| && looks(picked[m], sorted[k]);
        assert p[m] == picked[m];
      } else if k == i {
        assert p[|picked|] == sorted[i];
      }
    }
  }

  /** Skipping the next candidate when some pick resembles it. */
  lemma {:induction false} FillSkip(sorted: seq<Candidate>, picked: seq<Candidate>, i: nat, looks: Comparator)
    requires Filled(sorted, picked, i, looks) && i < |sorted|
    requires LooksLikeAny(picked, sorted[i], looks)
    ensures Filled(sorted, picked, i + 1, looks)
  {
  }

  /** The loop that fills the population: the candidates in order of
      descending raw score, each taken unless it looks like a member
      already taken, until `popSize` are taken. Returns the sorted
      candidates and the members with their resemblance counts. */
  method InitialPopulation(all: seq<Candidate>, popSize: int, looks: Comparator)
    returns (sorted: seq<Candidate>, pop: seq<Member>)
    ensures sorted == SortDesc(all, CandidateScore)
    ensures |pop| <= if popSize < 0 then 0 else popSize
    ensures DescendingBy(pop, MemberScore)
    ensures forall i, j :: 0 <= i < j < |pop| ==> !looks(pop[i].cand, pop[j].cand)
    ensures forall k :: 0 <= k < |pop| ==> pop[k].cand in sorted
    ensures forall k :: 0 <= k < |pop| ==> pop[k].looksLike == CountLooksLike(pop[k].cand, sorted, looks)
    ensures |pop| < popSize ==> forall k :: 0 <= k < |sorted| ==>
      sorted[k] in Candidates(pop) || LooksLikeAny(Candidates(pop), sorted[k], looks)
    ensures |pop| > 0 ==> forall k :: 0 <= k < |sorted| ==>
      || sorted[k] in Candidates(pop)
      || LooksLikeAny(Candidates(pop), sorted[k], looks)
      || sorted[k].score <= pop[|pop| - 1].cand.score
  {
    sorted := SortDesc(all, CandidateScore);
    var picked: seq<Candidate> := [];
    var i := 0;
    while i < |sorted| && |picked| < popSize
      invariant |picked| <= if popSize < 0 then 0 else popSize
      invariant Filled(sorted, picked, i, looks)
      decreases |sorted| - i
    {
      var eq := AnyLooksLike(picked, sorted[i], looks);
      if !eq {
        FillTake(sorted, picked, i, looks);
        picked := picked + [sorted[i]];
      } else {
        FillSkip(sorted, picked, i, looks);
      }
      i := i + 1;
    }
    pop := WithCounts(picked, sorted, looks);
    FilledPopulation(sorted, picked, i, popSize, looks);
  }

  /** The picks as members, each with its resemblance count among the
      sorted candidates. */
  function WithCounts(picked: seq<Candidate>, sorted: seq<Candidate>, looks: Comparator): (pop: seq<Member>)
    ensures Candidates(pop) == picked
    ensures forall k :: 0 <= k < |pop| ==> pop[k].looksLike == CountLooksLike(pop[k].cand, sorted, looks)
  {
    var pop := seq(|picked|, k requires 0 <= k < |picked| => Member(picked[k], CountLooksLike(picked[k], sorted, looks)));
    assert Candidates(pop) == picked;
    pop
  }

  /** When the fill loop stops, its picks with their counts make a
      population with the properties `InitialPopulation` promises. */
  lemma {:induction false} FilledPopulation(sorted: seq<Candidate>, picked: seq<Candidate>, i: nat, popSize: int, looks: Comparator)
    requires Filled(sorted, picked, i, looks)
    requires |picked| <= (if popSize < 0 then 0 else popSize)
    requires i == |sorted| || |picked| >= popSize
    ensures var pop := WithCounts(picked, sorted, looks);
      && DescendingBy(pop, MemberScore)
      && (forall a, b :: 0 <= a < b < |pop| ==> !looks(pop[a].cand, pop[b].cand))
      && (forall k :: 0 <= k < |pop| ==> pop[k].cand in sorted)
      && (|pop| < popSize ==> forall k :: 0 <= k < |sorted| ==>
           sorted[k] in Candidates(pop) || LooksLikeAny(Candidates(pop), sorted[k], looks))
      && (|pop| > 0 ==> forall k :: 0 <= k < |sorted| ==>
           || sorted[k] in Candidates(pop)
           || LooksLikeAny(Candidates(pop), sorted[k], looks)
           || sorted[k].score <= pop[|pop| - 1].cand.score)
  {
    var pop := WithCounts(picked, sorted, looks);
    assert forall k :: 0 <= k < |pop| ==> pop[k].cand == picked[k];
  }

  /** The inner loop: whether some member taken so far looks like c. */
  method AnyLooksLike(picked: seq<Candidate>, c: Candidate, looks: Comparator) returns (eq: bool)
    ensures eq <==> LooksLikeAny(picked, c, looks)
  {
    eq := false;
    var m := 0;
    while m < |picked| && !eq
      invariant 0 <= m <= |picked|
      invariant eq <==> exists n :: 0 <= n < m && looks(picked[n], c)
    {
      if looks(picked[m], c) {
        eq := true;
      }
      m := m + 1;
    }
  }

  /** The candidates of the members, in order. */
  function Candidates(pop: seq<Member>): (r: seq<Candidate>)
    ensures |r| == |pop|
    ensures forall k :: 0 <= k < |pop| ==> r[k] == pop[k].cand
  {
    seq(|pop|, k requires 0 <= k < |pop| => pop[k].cand)
  }

  // ---------------------------------------------------------------------
  // `__add_candidate__`

  /** The index of the first member that a looks like. */
  function FirstSimilar(a: Candidate, pop: seq<Member>, looks: Comparator): (r: Option<nat>)
    ensures r.None? <==> forall k :: 0 <= k < |pop| ==> !looks(a, pop[k].cand)
    ensures r.Some? ==>
      r.value < |pop| && looks(a, pop[r.value].cand)
      && forall k :: 0 <= k < r.value ==> !looks(a, pop[k].cand)
  {
    if |pop| == 0 then None
    else if looks(a, pop[0].cand) then Some(0)
    else
      match FirstSimilar(a, pop[1..], looks)
      case None => None
      case Some(i) => Some(i + 1)
  }

  /** The population without member i. */
  function Without(pop: seq<Member>, i: nat): (r: seq<Member>)
    requires i < |pop|
    ensures |r| == |pop| - 1
    ensures multiset(r) == multiset(pop) - multiset{pop[i]}
  {
    assert pop == pop[..i] + [pop[i]] + pop[i + 1..];
    pop[..i] + pop[i + 1..]
  }

  /** Adding one candidate. With an empty population there is no last
      member to compare with. A full population ignores a candidate scoring
      below its last member. A candidate resembling a member takes that
      member's place only when it scores strictly higher. Otherwise a full
      population drops its last member and the candidate joins. The
      result is sorted best first. */
  function AddCandidate(pop: seq<Member>, popSize: int, all: seq<Candidate>, a: Candidate, looks: Comparator)
    : (r: Result<seq<Member>>)
    ensures r.Failure? <==> |pop| == 0
    ensures r.Failure? ==> r.error == IndexError
    ensures r.Success? && |pop| == popSize && a.score < pop[|pop| - 1].cand.score ==> r.value == pop
    ensures r.Success? && !(|pop| == popSize && a.score < pop[|pop| - 1].cand.score) ==>
      match FirstSimilar(a, pop, looks)
      case Some(i) =>
        if pop[i].cand.score < a.score then
          multiset(r.value) == multiset(pop) - multiset{pop[i]} + multiset{Member(a, CountLooksLike(a, all, looks))}
        else r.value == pop
      case None =>
        multiset(r.value) == multiset(if |pop| == popSize then pop[..|pop| - 1] else pop)
          + multiset{Member(a, CountLooksLike(a, all, looks))}
  {
    if |pop| == 0 then Failure(IndexError)
    else if a.score < pop[|pop| - 1].cand.score && |pop| == popSize then Success(pop)
    else
      var member := Member(a, CountLooksLike(a, all, looks));
      match FirstSimilar(a, pop, looks)
      case Some(i) =>
        if pop[i].cand.score < a.score then Success(SortDesc(Without(pop, i) + [member], MemberScore))
        else Success(pop)
      case None =>
        var kept := if |pop| == popSize then pop[..|pop| - 1] else pop;
        Success(SortDesc(kept + [member], MemberScore))
  }

  /** The size never grows past `popSize`, and a candidate resembling a
      member leaves the size as it was. */
  lemma {:induction false} AddCandidateSize(pop: seq<Member>, popSize: int, all: seq<Candidate>, a: Candidate, looks: Comparator)
    requires 0 < |pop| <= popSize
    ensures |AddCandidate(pop, popSize, all, a, looks).value| <= popSize
    ensures FirstSimilar(a, pop, looks).Some? ==> |AddCandidate(pop, popSize, all, a, looks).value| == |pop|
  {
  }

  /** What every add keeps: at most `popSize` members, best first. */
  predicate Valid(pop: seq<Member>, popSize: int)
  {
    |pop| <= popSize && DescendingBy(pop, MemberScore)
  }

  lemma {:induction false} AddKeepsValid(pop: seq<Member>, popSize: int, all: seq<Candidate>, a: Candidate, looks: Comparator)
    requires 0 < |pop| && Valid(pop, popSize)
    ensures Valid(AddCandidate(pop, popSize, all, a, looks).value, popSize)
  {
    AddCandidateSize(pop, popSize, all, a, looks);
  }

  /** When the population is full, a candidate that resembles no member and
      scores at least as well as the last member evicts the last member. */
  lemma {:induction false} AddEvictsLast(pop: seq<Member>, popSize: int, all: seq<Candidate>, a: Candidate, looks: Comparator)
    requires 0 < |pop| == popSize
    requires a.score >= pop[|pop| - 1].cand.score
    requires FirstSimilar(a, pop, looks).None?
    ensures var r := AddCandidate(pop, popSize, all, a, looks).value;
      |r| == popSize && Member(a, CountLooksLike(a, all, looks)) in r
      && multiset(r) == multiset(pop) - multiset{pop[|pop| - 1]} + multiset{Member(a, CountLooksLike(a, all, looks))}
  {
    var r := AddCandidate(pop, popSize, all, a, looks).value;
    var member := Member(a, CountLooksLike(a, all, looks));
    assert multiset(r) == multiset(pop[..|pop| - 1]) + multiset{member};
    ReplaceLast(pop, r, member);
  }

  /** A list holding the members of `pop` but its last, plus one more, has
      the size of `pop`, holds the new member, and is `pop` with the last
      member exchanged for it. */
  lemma {:induction false} ReplaceLast(pop: seq<Member>, r: seq<Member>, member: Member)
    requires |pop| > 0 && multiset(r) == multiset(pop[..|pop| - 1]) + multiset{member}
    ensures |r| == |pop| && member in r
    ensures multiset(r) == multiset(pop) - multiset{pop[|pop| - 1]} + multiset{member}
  {
    var kept := pop[..|pop| - 1];
    assert multiset(kept) == multiset(pop) - multiset{pop[|pop| - 1]} by {
      assert pop == kept + [pop[|pop| - 1]];
    }
    assert |multiset(r)| == |multiset(kept)| + 1;
    assert multiset(r)[member] > 0;
  }

  // ---------------------------------------------------------------------
  // `get_two_candidates`

  /** The key under which a pairing is recorded: the two ids in order. */
  function PairKey(a: int, b: int): (r: (int, int))
    ensures r.0 <= r.1
    ensures (r.0 == a && r.1 == b) || (r.0 == b && r.1 == a)
  {
    if a <= b then (a, b) else (b, a)
  }

  /** The key does not depend on which of the two was drawn first. */
  lemma {:induction false} PairKeySymmetric(a: int, b: int)
    ensures PairKey(a, b) == PairKey(b, a)
  {
  }

  /** The outcome of `get_two_candidates`: too few members, a pair, or
      still drawing when the given draws run out. */
  datatype Pick = TooFew | Picked(first: Candidate, second: Candidate) | Undecided

  predicate DrawsInRange(pop: seq<Member>, draws: seq<(nat, nat)>)
  {
    forall k :: 0 <= k < |draws| ==> draws[k].0 < |pop| && draws[k].1 < |pop|
  }

  /** The drawing loop: it goes on while both picks have the same `confid`
      and that pairing has not been used before. Each step takes the indices
      the roulette wheel selected for the first and second pick. */
  function DrawLoop(pop: seq<Member>, pairs: set<(int, int)>, c1: Candidate, c2: Candidate,
                    usedBefore: bool, draws: seq<(nat, nat)>): (r: Pick)
    requires DrawsInRange(pop, draws)
    ensures r != TooFew
    ensures r.Picked? ==>
      r.first.confid != r.second.confid || usedBefore
      || PairKey(r.first.confid, r.second.confid) in pairs
    ensures r.Picked? && |draws| > 0 && c1.confid == c2.confid && !usedBefore ==>
      r.first in Candidates(pop) && r.second in Candidates(pop)
    decreases |draws|
  {
    if !(c1.confid == c2.confid && !usedBefore) then Picked(c1, c2)
    else if |draws| == 0 then Undecided
    else
      var n1 := pop[draws[0].0].cand;
      var n2 := pop[draws[0].1].cand;
      assert n1 == Candidates(pop)[draws[0].0] && n2 == Candidates(pop)[draws[0].1];
      DrawLoop(pop, pairs, n1, n2, PairKey(n1.confid, n2.confid) in pairs, draws[1..])
  }

  /** `min(scores)` over the members' raw scores. */
  function MinScore(pop: seq<Member>): (r: real)
    requires |pop| > 0
    ensures forall i :: 0 <= i < |pop| ==> r <= pop[i].cand.score
    ensures exists i :: 0 <= i < |pop| && r == pop[i].cand.score
    decreases |pop|
  {
    if |pop| == 1 then pop[0].cand.score
    else
      var rest := MinScore(pop[1..]);
      assert forall i :: 1 <= i < |pop| ==> pop[1..][i - 1] == pop[i];
      ghost var j :| 0 <= j < |pop[1..]| && rest == pop[1..][j].cand.score;
      assert rest == pop[j + 1].cand.score;
      if pop[0].cand.score <= rest then pop[0].cand.score else rest
  }

  /** `max(scores)` over the members' raw scores. */
  function MaxScore(pop: seq<Member>): (r: real)
    requires |pop| > 0
    ensures forall i :: 0 <= i < |pop| ==> pop[i].cand.score <= r
    ensures exists i :: 0 <= i < |pop| && r == pop[i].cand.score
    decreases |pop|
  {
    if |pop| == 1 then pop[0].cand.score
    else
      var rest := MaxScore(pop[1..]);
      assert forall i :: 1 <= i < |pop| ==> pop[1..][i - 1] == pop[i];
      ghost var j :| 0 <= j < |pop[1..]| && rest == pop[1..][j].cand.score;
      assert rest == pop[j + 1].cand.score;
      if rest <= pop[0].cand.score then pop[0].cand.score else rest
  }

  /** Every member has the raw score of the first one. */
  predicate EqualScores(pop: seq<Member>)
    requires |pop| > 0
  {
    forall i :: 0 <= i < |pop| ==> pop[i].cand.score == pop[0].cand.score
  }

  /** The divisor `T = min_s - max_s` of `__get_fitness__` is zero exactly
      when all raw scores are equal. */
  lemma {:induction false} ScoreRangeZero(pop: seq<Member>)
    requires |pop| > 0
    ensures MinScore(pop) - MaxScore(pop) == 0.0 <==> EqualScores(pop)
  {
    var lo := MinScore(pop);
    var hi := MaxScore(pop);
    if EqualScores(pop) {
      var i :| 0 <= i < |pop| && lo == pop[i].cand.score;
      var j :| 0 <= j < |pop| && hi == pop[j].cand.score;
      assert lo == pop[0].cand.score == hi;
    } else {
      var k :| 0 <= k < |pop| && pop[k].cand.score != pop[0].cand.score;
      assert lo <= pop[k].cand.score <= hi && lo <= pop[0].cand.score <= hi;
    }
  }

  /** `get_two_candidates` on the population after its update: `None` with
      fewer than two members; otherwise the fitness of every member is
      computed first, which divides by `min_s - max_s` and so raises
      ZeroDivisionError when all raw scores are equal; otherwise the loop
      starts from the first member drawn twice. */
  function GetTwoCandidates(pop: seq<Member>, pairs: set<(int, int)>, draws: seq<(nat, nat)>): (r: Result<Pick>)
    requires DrawsInRange(pop, draws)
    ensures r.Failure? <==> |pop| >= 2 && EqualScores(pop)
    ensures r.Failure? ==> r.error == ZeroDivisionError
    ensures r.Success? ==> (r.value == TooFew <==> |pop| < 2)
    ensures r.Success? && r.value.Picked? ==>
      r.value.first.confid != r.value.second.confid || PairKey(r.value.first.confid, r.value.second.confid) in pairs
    ensures r.Success? && r.value.Picked? ==> r.value.first in Candidates(pop) && r.value.second in Candidates(pop)
  {
    if |pop| < 2 then Success(TooFew)
    else
      ScoreRangeZero(pop);
      if MinScore(pop) - MaxScore(pop) == 0.0 then Failure(ZeroDivisionError)
      else Success(DrawLoop(pop, pairs, pop[0].cand, pop[0].cand, false, draws))
  }

  /** A first draw of two different candidates ends the loop with them,
      whether or not they were paired before, unless equal raw scores made
      the fitness computation raise before any draw. */
  lemma {:induction false} FirstDistinctDrawWins(pop: seq<Member>, pairs: set<(int, int)>, draws: seq<(nat, nat)>)
    requires |pop| >= 2 && |draws| > 0 && DrawsInRange(pop, draws)
    requires pop[draws[0].0].cand.confid != pop[draws[0].1].cand.confid
    ensures GetTwoCandidates(pop, pairs, draws)
      == if EqualScores(pop) then Failure(ZeroDivisionError) else Success(Picked(pop[draws[0].0].cand, pop[draws[0].1].cand))
  {
    var n1 := pop[draws[0].0].cand;
    var n2 := pop[draws[0].1].cand;
    ScoreRangeZero(pop);
    assert DrawLoop(pop, pairs, n1, n2, PairKey(n1.confid, n2.confid) in pairs, draws[1..]) == Picked(n1, n2);
  }

  /** Two dissimilar members with the same raw score: the fitness
      computation divides by zero. */
  lemma {:induction false} EqualScoresRaise()
    ensures GetTwoCandidates([Member(Candidate(1, 1.0), 0), Member(Candidate(2, 1.0), 0)], {}, [(0, 1)])
      == Failure(ZeroDivisionError)
  {
    ScoreRangeZero([Member(Candidate(1, 1.0), 0), Member(Candidate(2, 1.0), 0)]);
  }

  // ---------------------------------------------------------------------
  // `mass_extinction`

  /** The population and the candidates killed in the database. */
  datatype State = State(pop: seq<Member>, extinct: set<int>)

  /** The loop `for confid in ids: kill_candidate(confid)`, one kill after
      the other: afterwards the killed candidates are those killed before
      and the listed ones. */
  function KillEach(extinct: set<int>, ids: seq<int>): (r: set<int>)
    ensures forall id :: id in r <==> id in extinct || id in ids
    decreases |ids|
  {
    if |ids| == 0 then extinct
    else
      var r := KillEach(extinct + {ids[0]}, ids[1..]);
      assert forall id :: id in ids <==> id == ids[0] || id in ids[1..];
      r
  }

  /** Every listed candidate is killed and the population is emptied. */
  function MassExtinction(s: State, ids: seq<int>): (r: State)
    ensures r.pop == []
    ensures forall id :: id in r.extinct <==> id in s.extinct || id in ids
  {
    State([], KillEach(s.extinct, ids))
  }

  /** Two extinctions in a row kill what one extinction over both lists
      kills; in particular repeating an extinction changes nothing. */
  lemma {:induction false} ExtinctionsCompose(s: State, ids: seq<int>, more: seq<int>)
    ensures MassExtinction(MassExtinction(s, ids), more) == MassExtinction(s, ids + more)
    ensures MassExtinction(MassExtinction(s, ids), ids) == MassExtinction(s, ids)
  {
    var once := MassExtinction(s, ids);
    assert MassExtinction(once, more).extinct == MassExtinction(s, ids + more).extinct by {
      forall id ensures id in MassExtinction(once, more).extinct <==> id in MassExtinction(s, ids + more).extinct {
        assert id in ids + more <==> id in ids || id in more;
      }
    }
    assert MassExtinction(once, ids).extinct == once.extinct;
  }

  /** After an extinction the population has to be filled again before a
      candidate can be added: adding to it raises IndexError. */
  lemma {:induction false} AddAfterExtinction(s: State, ids: seq<int>, popSize: int, all: seq<Candidate>, a: Candidate, looks: Comparator)
    ensures AddCandidate(MassExtinction(s, ids).pop, popSize, all, a, looks) == Failure(IndexError)
  {
  }
}
