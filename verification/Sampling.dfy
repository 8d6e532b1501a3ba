/** Unbiased choice from 32-bit random words, and the shuffle built on it. */
module Sampling {
  import opened Types

  const U32_MAX := 0xffff_ffff

  type Word = w: int | 0 <= w <= U32_MAX

  /** The operating system's random source: the words it will deliver before it fails. */
  class Entropy {
    var words: seq<Word>

    constructor (words: seq<Word>)
      ensures this.words == words
    {
      this.words := words;
    }

    method Next() returns (r: Result<Word>)
      modifies this
      ensures old(words) == [] ==> r == Err(Validation) && words == []
      ensures old(words) != [] ==> r == Ok(old(words)[0]) && words == old(words)[1..]
    {
      if words == [] { return Err(Validation); }
      r := Ok(words[0]);
      words := words[1..];
    }
  }

  // ---- rejection sampling ----

  /** Words below the zone are accepted. */
  function Zone(bound: nat): int
    requires 0 < bound <= U32_MAX
  {
    U32_MAX - U32_MAX % bound
  }

  /** The index drawn from the front of `words`, and the words left. */
  function Draw(bound: nat, words: seq<Word>): (r: (Result<nat>, seq<Word>))
    ensures r.0.Ok? ==> r.0.value < bound
  {
    if bound == 0 || bound > U32_MAX then (Err(Validation), words)
    else if words == [] then (Err(Validation), [])
    else if words[0] < Zone(bound) then (Ok(words[0] % bound), words[1..])
    else Draw(bound, words[1..])
  }

  method RandomIndex(e: Entropy, bound: nat) returns (r: Result<nat>)
    modifies e
    ensures (r, e.words) == Draw(bound, old(e.words))
  {
    if bound == 0 { return Err(Validation); }
    if bound > U32_MAX { return Err(Validation); }
    var zone := U32_MAX - U32_MAX % bound;
    while true
      invariant Draw(bound, e.words) == Draw(bound, old(e.words))
      decreases |e.words|
    {
      var candidate := e.Next();
      match candidate {
        case Err(error) => return Err(error);
        case Ok(word) =>
          if word < zone { return Ok(word % bound); }
      }
    }
  }

  /** The loop returns the first accepted word modulo the bound and consumes nothing beyond it. */
  lemma {:induction false} DrawIsFirstAccepted(bound: nat, words: seq<Word>, i: nat)
    requires 0 < bound <= U32_MAX && i <= |words| && forall j :: 0 <= j < i ==> words[j] >= Zone(bound)
    ensures i == |words| ==> Draw(bound, words) == (Err(Validation), [])
    ensures i < |words| && words[i] < Zone(bound) ==> Draw(bound, words) == (Ok(words[i] % bound), words[i + 1..])
  {
    if i > 0 {
      DrawIsFirstAccepted(bound, words[1..], i - 1);
      if i < |words| {
        assert words[1..][i - 1] == words[i] && words[1..][i..] == words[i + 1..];
      }
    }
  }

  /** The accepted words of one residue. */
  ghost function Preimages(bound: nat, residue: nat, limit: nat): set<int>
    requires bound > 0
  {
    set w | 0 <= w < limit && w % bound == residue
  }

  lemma {:induction false} PreimageCount(bound: nat, residue: nat, blocks: nat)
    requires residue < bound
    ensures |Preimages(bound, residue, blocks * bound)| == blocks
  {
    if blocks == 0 {
      assert Preimages(bound, residue, 0) == {};
    } else {
      var below, w := (blocks - 1) * bound, (blocks - 1) * bound + residue;
      PreimageCount(bound, residue, blocks - 1);
      forall v | below <= v < below + bound ensures v % bound == v - below {
        BlockRemainder(bound, blocks - 1, v - below);
      }
      assert blocks * bound == below + bound;
      assert Preimages(bound, residue, blocks * bound) == Preimages(bound, residue, below) + {w};
    }
  }

  lemma MultiplesApart(bound: int, d: int)
    requires bound > 0 && d != 0
    ensures d * bound >= bound || d * bound <= -bound
  {
    if d > 0 {
      assert d * bound == (d - 1) * bound + bound;
      assert (d - 1) * bound >= 0;
    } else {
      assert d * bound == -bound - (-d - 1) * bound;
      assert (-d - 1) * bound >= 0;
    }
  }

  lemma BlockRemainder(bound: nat, blocks: nat, r: nat)
    requires r < bound
    ensures (blocks * bound + r) % bound == r
  {
    var x := blocks * bound + r;
    var d := blocks - x / bound;
    assert x == x / bound * bound + x % bound;
    assert d * bound == blocks * bound - x / bound * bound;
    if d != 0 { MultiplesApart(bound, d); }
  }

  /** Main result. The zone is a positive multiple of the bound and every index below the bound has the same number of
      accepted words; at least half of all words are accepted, and more than half unless the bound is 2^31. */
  lemma DrawIsUniform(bound: nat, residue: nat)
    requires 0 < bound <= U32_MAX && residue < bound
    ensures Zone(bound) > 0 && Zone(bound) % bound == 0
    ensures |Preimages(bound, residue, Zone(bound))| == Zone(bound) / bound
    ensures 2 * Zone(bound) >= U32_MAX + 1
    ensures 2 * Zone(bound) > U32_MAX + 1 <==> bound != 0x8000_0000
  {
    var q := U32_MAX / bound;
    assert Zone(bound) == q * bound;
    BlockRemainder(bound, q, 0);
    PreimageCount(bound, residue, q);
    if bound < 0x8000_0000 {
      assert U32_MAX % bound < bound;
    } else {
      assert q == 1 by {
        assert bound <= U32_MAX < 2 * bound;
      }
    }
  }

  // ---- the shuffle ----

  function Swap<T>(s: seq<T>, i: nat, j: nat): (t: seq<T>)
    requires i < |s| && j < |s|
    ensures |t| == |s|
  {
    s[i := s[j]][j := s[i]]
  }

  /** One swap index per position, each at most the position. */
  predicate ChoiceVector(c: seq<nat>, n: nat) {
    |c| == n && forall i :: 0 <= i < n ==> c[i] <= i
  }

  /** The swaps for the positions below `k`, highest first. */
  function Shuffle<T>(s: seq<T>, c: seq<nat>, k: nat): (t: seq<T>)
    requires ChoiceVector(c, |s|) && k <= |s|
    ensures |t| == |s|
    decreases k
  {
    if k <= 1 then s else Shuffle(Swap(s, k - 1, c[k - 1]), c, k - 1)
  }

  /** The shuffle as the loop runs it, drawing each swap index when it is needed. */
  function ShuffleDrawn<T>(s: seq<T>, k: nat, words: seq<Word>): (r: (seq<T>, Result<()>, seq<Word>))
    requires k <= |s|
    ensures |r.0| == |s|
    decreases k
  {
    if k <= 1 then (s, Ok(()), words)
    else
      var (drawn, rest) := Draw(k, words);
      match drawn
      case Err(e) => (s, Err(e), rest)
      case Ok(j) => ShuffleDrawn(Swap(s, k - 1, j), k - 1, rest)
  }

  method ShuffleInPlace(a: array<byte>, e: Entropy) returns (r: Result<()>)
    modifies a, e
    ensures (a[..], r, e.words) == ShuffleDrawn(old(a[..]), a.Length, old(e.words))
  {
    var index := a.Length;
    while index > 1
      invariant 0 <= index <= a.Length
      invariant ShuffleDrawn(a[..], index, e.words) == ShuffleDrawn(old(a[..]), a.Length, old(e.words))
    {
      index := index - 1;
      var drawn := RandomIndex(e, index + 1);
      match drawn {
        case Err(error) => return Err(error);
        case Ok(swapIndex) =>
          ghost var before := a[..];
          a[index], a[swapIndex] := a[swapIndex], a[index];
          assert a[..] == Swap(before, index, swapIndex);
      }
    }
    return Ok(());
  }

  /** The indices a complete shuffle of `k` positions draws. */
  function DrawnChoices(k: nat, words: seq<Word>): (c: Option<seq<nat>>)
    ensures c.Some? ==> ChoiceVector(c.value, k)
  {
    if k == 0 then Some([])
    else if k == 1 then Some([0])
    else
      var (drawn, rest) := Draw(k, words);
      match drawn
      case Err(_) => None
      case Ok(j) =>
        var lower := DrawnChoices(k - 1, rest);
        if lower.None? then None else Some(lower.value + [j])
  }

  /** The loop succeeds exactly when it can draw a whole choice vector, and then performs that vector's swaps; `upper`
      are the choices already used for the positions from `k` on. */
  lemma {:induction false} ShuffleDrawnIsShuffle<T>(s: seq<T>, k: nat, words: seq<Word>, upper: seq<nat>)
    requires k + |upper| == |s| && forall i :: 0 <= i < |upper| ==> upper[i] <= k + i
    ensures ShuffleDrawn(s, k, words).1.Ok? <==> DrawnChoices(k, words).Some?
    ensures DrawnChoices(k, words).Some? ==>
      ShuffleDrawn(s, k, words).0 == Shuffle(s, DrawnChoices(k, words).value + upper, k)
    decreases k
  {
    if k > 1 {
      var (drawn, rest) := Draw(k, words);
      match drawn
      case Err(_) =>
      case Ok(j) =>
        var s' := Swap(s, k - 1, j);
        ShuffleDrawnIsShuffle(s', k - 1, rest, [j] + upper);
        var lower := DrawnChoices(k - 1, rest);
        if lower.Some? {
          assert lower.value + [j] + upper == lower.value + ([j] + upper);
          assert (lower.value + [j] + upper)[k - 1] == j;
        }
    }
  }

  // ---- choice vectors and permutations ----

  /** `t` lists the elements of `s`, each once, in some order. */
  ghost predicate Arranges<T(!new)>(s: seq<T>, t: seq<T>) {
    |t| == |s| && Distinct(t) && forall x :: x in t ==> x in s
  }

  lemma SwapKeeps<T(!new)>(s: seq<T>, i: nat, j: nat)
    requires i < |s| && j < |s|
    ensures multiset(Swap(s, i, j)) == multiset(s)
    ensures Distinct(s) ==> Distinct(Swap(s, i, j))
    ensures forall x :: x in Swap(s, i, j) <==> x in s
  {
    var t := Swap(s, i, j);
    forall x ensures x in t <==> x in s {
      if x in s {
        var k :| 0 <= k < |s| && s[k] == x;
        assert t[if k == i then j else if k == j then i else k] == x;
      }
    }
  }

  /** Positions from `k` on are final, and position k-1 receives the element its choice points at. */
  lemma {:induction false} ShuffleFixes<T>(s: seq<T>, c: seq<nat>, k: nat)
    requires ChoiceVector(c, |s|) && k <= |s|
    ensures Shuffle(s, c, k)[k..] == s[k..]
    ensures k > 0 ==> Shuffle(s, c, k)[k - 1] == s[c[k - 1]]
    decreases k
  {
    if k > 1 {
      var s' := Swap(s, k - 1, c[k - 1]);
      ShuffleFixes(s', c, k - 1);
      var t := Shuffle(s, c, k);
      assert t[k - 1] == t[k - 1..][0] == s'[k - 1..][0];
      assert t[k..] == t[k - 1..][1..] == s'[k - 1..][1..] == s'[k..] == s[k..];
    }
  }

  /** Nothing is lost or invented, whatever the choices. */
  lemma {:induction false} ShuffleArranges<T(!new)>(s: seq<T>, c: seq<nat>, k: nat)
    requires ChoiceVector(c, |s|) && k <= |s|
    ensures multiset(Shuffle(s, c, k)) == multiset(s)
    ensures Distinct(s) ==> Arranges(s, Shuffle(s, c, k))
    decreases k
  {
    if k > 1 {
      SwapKeeps(s, k - 1, c[k - 1]);
      ShuffleArranges(Swap(s, k - 1, c[k - 1]), c, k - 1);
    }
  }

  /** Different choice vectors give different arrangements. */
  lemma {:induction false} ShuffleInjective<T(!new)>(s: seq<T>, c: seq<nat>, d: seq<nat>, k: nat)
    requires Distinct(s) && ChoiceVector(c, |s|) && ChoiceVector(d, |s|) && k <= |s|
    requires Shuffle(s, c, k) == Shuffle(s, d, k)
    ensures c[..k] == d[..k]
    decreases k
  {
    if k > 0 {
      ShuffleFixes(s, c, k);
      ShuffleFixes(s, d, k);
      var i, j := c[k - 1], d[k - 1];
      assert s[i] == s[j];
      assert i == j;
      if k > 1 {
        SwapKeeps(s, k - 1, i);
        ShuffleInjective(Swap(s, k - 1, i), c, d, k - 1);
      }
      assert c[..k] == c[..k - 1] + [c[k - 1]] && d[..k] == d[..k - 1] + [d[k - 1]];
    }
  }

  /** The choices that turn `s` into `t`, when both already agree from `k` on. */
  ghost function ChoicesFor<T(!new)>(s: seq<T>, t: seq<T>, k: nat): (c: seq<nat>)
    requires Distinct(s) && Arranges(s, t) && k <= |s| && s[k..] == t[k..]
    ensures ChoiceVector(c, k)
    decreases k
  {
    if k == 0 then []
    else
      var j := SourceOf(s, t, k);
      ChoicesFor(Swapped(s, t, k), t, k - 1) + [j]
  }

  lemma TailsAgree<T>(s: seq<T>, t: seq<T>, k: nat)
    requires |s| == |t| && k <= |s| && s[k..] == t[k..]
    ensures forall i :: k <= i < |s| ==> s[i] == t[i]
  {
    forall i | k <= i < |s| ensures s[i] == t[i] {
      assert s[i] == s[k..][i - k];
    }
  }

  /** Where the element wanted at k-1 stands now: below `k`, as the later positions are settled. */
  ghost function SourceOf<T(!new)>(s: seq<T>, t: seq<T>, k: nat): (j: nat)
    requires Distinct(s) && Arranges(s, t) && 0 < k <= |s| && s[k..] == t[k..]
    ensures j < k && s[j] == t[k - 1]
  {
    assert t[k - 1] in t;
    TailsAgree(s, t, k);
    var j :| 0 <= j < |s| && s[j] == t[k - 1];
    j
  }

  ghost function Swapped<T(!new)>(s: seq<T>, t: seq<T>, k: nat): (s': seq<T>)
    requires Distinct(s) && Arranges(s, t) && 0 < k <= |s| && s[k..] == t[k..]
    ensures Distinct(s') && Arranges(s', t) && s'[k - 1..] == t[k - 1..]
  {
    var j := SourceOf(s, t, k);
    SwapKeeps(s, k - 1, j);
    var s' := Swap(s, k - 1, j);
    assert s'[k - 1..] == [s'[k - 1]] + s[k..];
    assert t[k - 1..] == [t[k - 1]] + t[k..];
    s'
  }

  /** Every arrangement is reached. */
  lemma {:induction false} ShuffleSurjective<T(!new)>(s: seq<T>, t: seq<T>, k: nat, upper: seq<nat>)
    requires Distinct(s) && Arranges(s, t) && k <= |s| && s[k..] == t[k..]
    requires k + |upper| == |s| && forall i :: 0 <= i < |upper| ==> upper[i] <= k + i
    ensures ChoiceVector(ChoicesFor(s, t, k) + upper, |s|)
    ensures Shuffle(s, ChoicesFor(s, t, k) + upper, k) == t
    decreases k
  {
    if k == 0 {
      assert s == s[0..] == t[0..] == t;
    } else {
      var j := SourceOf(s, t, k);
      var s' := Swapped(s, t, k);
      var lower := ChoicesFor(s', t, k - 1);
      var c := lower + ([j] + upper);
      ShuffleSurjective(s', t, k - 1, [j] + upper);
      assert ChoicesFor(s, t, k) + upper == c by {
        assert (lower + [j]) + upper == lower + ([j] + upper);
      }
      assert c[k - 1] == j;
      if k == 1 { assert s' == s; }
    }
  }

  /** Main result. On n distinct positions every arrangement comes from exactly one choice vector, and every choice
      vector gives an arrangement: uniform choices make every arrangement equally likely. */
  lemma ShuffleIsBijective<T(!new)>(s: seq<T>, t: seq<T>, c: seq<nat>, d: seq<nat>)
    requires Distinct(s)
    ensures ChoiceVector(c, |s|) ==> Arranges(s, Shuffle(s, c, |s|))
    ensures Arranges(s, t) ==>
      ChoiceVector(ChoicesFor(s, t, |s|), |s|) && Shuffle(s, ChoicesFor(s, t, |s|), |s|) == t
    ensures ChoiceVector(c, |s|) && ChoiceVector(d, |s|) && Shuffle(s, c, |s|) == Shuffle(s, d, |s|) ==> c == d
  {
    if ChoiceVector(c, |s|) {
      ShuffleArranges(s, c, |s|);
      if ChoiceVector(d, |s|) && Shuffle(s, c, |s|) == Shuffle(s, d, |s|) {
        ShuffleInjective(s, c, d, |s|);
        assert c == c[..|s|] && d == d[..|s|];
      }
    }
    if Arranges(s, t) {
      ShuffleSurjective(s, t, |s|, []);
      assert ChoicesFor(s, t, |s|) + [] == ChoicesFor(s, t, |s|);
    }
  }
}
