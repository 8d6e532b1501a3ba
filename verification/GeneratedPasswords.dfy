/** Which passwords the generator can return, and from which draws. */
module GeneratedPasswords {
  import opened Types
  import opened Sampling
  import opened Passwords

  // ---- one list of draws ----

  predicate InBounds(ix: seq<nat>, bounds: seq<nat>) {
    |ix| == |bounds| && forall i :: 0 <= i < |ix| ==> ix[i] < bounds[i]
  }

  type Drawn = (Result<seq<nat>>, seq<Word>)

  /** One draw after another, one for each bound. */
  function DrawAll(bounds: seq<nat>, words: seq<Word>): (r: Drawn)
    ensures r.0.Ok? ==> InBounds(r.0.value, bounds)
  {
    if bounds == [] then (Ok([]), words)
    else
      var (drawn, rest) := Draw(bounds[0], words);
      match drawn
      case Err(e) => (Err(e), rest)
      case Ok(i) =>
        var (more, rest') := DrawAll(bounds[1..], rest);
        (match more case Err(e) => Err(e) case Ok(ix) => Ok([i] + ix), rest')
  }

  /** Drawing for two lists of bounds in turn. */
  function Then(first: Drawn, bounds: seq<nat>): Drawn {
    match first.0
    case Err(_) => first
    case Ok(ix) =>
      var (more, rest) := DrawAll(bounds, first.1);
      (match more case Err(e) => Err(e) case Ok(js) => Ok(ix + js), rest)
  }

  lemma {:induction false} DrawAllSplit(b: seq<nat>, d: seq<nat>, words: seq<Word>)
    ensures DrawAll(b + d, words) == Then(DrawAll(b, words), d)
  {
    if b == [] {
      assert b + d == d;
      assert forall js: seq<nat> :: [] + js == js;
    } else {
      assert (b + d)[1..] == b[1..] + d;
      var (drawn, rest) := Draw(b[0], words);
      if drawn.Ok? {
        DrawAllSplit(b[1..], d, rest);
        assert forall ix: seq<nat>, js: seq<nat> :: [drawn.value] + ix + js == [drawn.value] + (ix + js);
      }
    }
  }

  lemma DrawOne(bound: nat, words: seq<Word>)
    ensures DrawAll([bound], words) ==
      (if Draw(bound, words).0.Err? then Err(Draw(bound, words).0.error) else Ok([Draw(bound, words).0.value]),
       Draw(bound, words).1)
  {
    assert [bound][1..] == [];
    assert forall rest: seq<Word> :: DrawAll([], rest) == (Ok([]), rest);
    var i: seq<nat> := if Draw(bound, words).0.Ok? then [Draw(bound, words).0.value] else [];
    assert i + [] == i;
  }

  lemma SmallRemainder(i: nat, bound: nat)
    requires i < bound
    ensures i % bound == i
  {
  }

  /** A word that is itself an index below the bound is drawn as it is. */
  lemma DrawIndex(bound: nat, i: nat, words: seq<Word>)
    requires i < bound <= 128 && words != [] && words[0] == i
    ensures Draw(bound, words) == (Ok(i), words[1..])
  {
    SmallRemainder(i, bound);
    DrawIsFirstAccepted(bound, words, 0);
    assert U32_MAX % bound < bound;
  }

  lemma {:induction false} DrawAllIndices(bounds: seq<nat>, ix: seq<nat>, words: seq<Word>)
    requires InBounds(ix, bounds) && |words| == |ix| && forall i :: 0 <= i < |ix| ==> words[i] == ix[i]
    requires forall i :: 0 <= i < |bounds| ==> bounds[i] <= 128
    ensures DrawAll(bounds, words) == (Ok(ix), [])
  {
    if bounds != [] {
      DrawIndex(bounds[0], ix[0], words);
      DrawAllIndices(bounds[1..], ix[1..], words[1..]);
      assert [ix[0]] + ix[1..] == ix;
    }
  }

  // ---- what the draws of a generation mean ----

  /** The four character classes. */
  datatype Classes = Classes(lower: bytes, upper: bytes, digit: bytes, symbol: bytes)

  const CHARSETS := Classes(LOWERCASE, UPPERCASE, Passwords.DIGITS, SYMBOLS)

  function All(q: Classes): bytes {
    q.lower + q.upper + q.digit + q.symbol
  }

  function SeedBounds(q: Classes): seq<nat> {
    [|q.lower|, |q.upper|, |q.digit|, |q.symbol|]
  }

  function Repeated(n: nat, bound: nat): seq<nat> {
    seq(n, _ => bound)
  }

  /** From the last position down to the second. */
  function Downwards(k: nat): seq<nat> {
    if k <= 1 then [] else [k] + Downwards(k - 1)
  }

  /** One draw for each class, and one for each further character. */
  function FrontBounds(q: Classes, n: nat): (b: seq<nat>)
    requires n >= 4
    ensures |b| == n
  {
    SeedBounds(q) + Repeated(n - 4, |All(q)|)
  }

  /** And then one for each swap. */
  function Bounds(q: Classes, n: nat): seq<nat>
    requires n >= 4
  {
    FrontBounds(q, n) + Downwards(n)
  }

  /** The characters at the given indices of `charset`. */
  function Chars(charset: bytes, ix: seq<nat>): (p: bytes)
    requires InBounds(ix, Repeated(|ix|, |charset|))
    ensures |p| == |ix|
  {
    seq(|ix|, i requires 0 <= i < |ix| => charset[ix[i]])
  }

  function SeedsOf(q: Classes, ix: seq<nat>): bytes
    requires InBounds(ix, SeedBounds(q))
  {
    assert ix[0] < SeedBounds(q)[0] && ix[1] < SeedBounds(q)[1] && ix[2] < SeedBounds(q)[2] && ix[3] < SeedBounds(q)[3];
    [q.lower[ix[0]], q.upper[ix[1]], q.digit[ix[2]], q.symbol[ix[3]]]
  }

  lemma FrontSplits(q: Classes, ix: seq<nat>, n: nat)
    requires n >= 4 && InBounds(ix, FrontBounds(q, n))
    ensures InBounds(ix[..4], SeedBounds(q)) && InBounds(ix[4..], Repeated(n - 4, |All(q)|))
  {
    forall i | 0 <= i < 4 ensures ix[..4][i] < SeedBounds(q)[i] { assert ix[i] < FrontBounds(q, n)[i]; }
    forall i | 0 <= i < n - 4 ensures ix[4..][i] < |All(q)| { assert ix[4 + i] < FrontBounds(q, n)[4 + i]; }
  }

  /** One character of each class and then characters of any class, before the shuffle. */
  function Filled(q: Classes, ix: seq<nat>, n: nat): (p: bytes)
    requires n >= 4 && InBounds(ix, FrontBounds(q, n))
    ensures |p| == n
  {
    FrontSplits(q, ix, n);
    SeedsOf(q, ix[..4]) + Chars(All(q), ix[4..])
  }

  /** The swap indices, which are drawn from the last position down, by position. */
  function ByPosition(js: seq<nat>, k: nat): (c: seq<nat>)
    requires InBounds(js, Downwards(k))
    ensures ChoiceVector(c, k)
  {
    if k == 0 then [] else if k == 1 then [0] else ByPosition(js[1..], k - 1) + [js[0]]
  }

  lemma SplitBounds(q: Classes, ix: seq<nat>, n: nat)
    requires n >= 4 && InBounds(ix, Bounds(q, n))
    ensures InBounds(ix[..n], FrontBounds(q, n)) && InBounds(ix[n..], Downwards(n))
  {
    forall i | 0 <= i < |ix| - n ensures ix[n..][i] < Downwards(n)[i] { assert ix[n + i] < Bounds(q, n)[n + i]; }
    forall i | 0 <= i < n ensures ix[..n][i] < FrontBounds(q, n)[i] { assert ix[i] < Bounds(q, n)[i]; }
  }

  /** The password that a list of draws makes. */
  function Password(q: Classes, ix: seq<nat>, n: nat): (p: bytes)
    requires n >= 4 && InBounds(ix, Bounds(q, n))
    ensures |p| == n
  {
    SplitBounds(q, ix, n);
    Shuffle(Filled(q, ix[..n], n), ByPosition(ix[n..], n), n)
  }

  // ---- the generator draws just so ----

  /** The outcome of some draws, with the characters `p` made of them. */
  function Spelled(drawn: Drawn, p: bytes): Partial {
    (if drawn.0.Err? then Err(drawn.0.error) else Ok(p), drawn.1)
  }

  lemma PushDraws(bounds: seq<nat>, words: seq<Word>, p: bytes, charset: bytes)
    ensures var drawn := DrawAll(bounds + [|charset|], words);
      && (drawn.0.Ok? ==> DrawAll(bounds, words).0.Ok? && drawn.0.value[..|bounds|] == DrawAll(bounds, words).0.value)
      && Push(Spelled(DrawAll(bounds, words), p), charset) ==
           Spelled(drawn, p + if drawn.0.Ok? then [charset[drawn.0.value[|bounds|]]] else [])
  {
    DrawAllSplit(bounds, [|charset|], words);
    var (first, rest) := DrawAll(bounds, words);
    if first.Ok? {
      DrawOne(|charset|, rest);
      var drawn := DrawAll(bounds + [|charset|], words);
      if drawn.0.Ok? { assert drawn.0.value == first.value + [Draw(|charset|, rest).0.value]; }
    }
  }

  /** One character of each of these charsets in turn. */
  function PushAll(words: seq<Word>, charsets: seq<bytes>): Partial {
    if charsets == [] then (Ok([]), words)
    else Push(PushAll(words, charsets[..|charsets| - 1]), charsets[|charsets| - 1])
  }

  function Sizes(charsets: seq<bytes>): seq<nat> {
    seq(|charsets|, i requires 0 <= i < |charsets| => |charsets[i]|)
  }

  function CharsOf(charsets: seq<bytes>, ix: seq<nat>): (p: bytes)
    requires InBounds(ix, Sizes(charsets))
    ensures |p| == |ix| && forall i :: 0 <= i < |p| ==> p[i] == charsets[i][ix[i]]
  {
    seq(|ix|, i requires 0 <= i < |ix| => assert ix[i] < Sizes(charsets)[i]; charsets[i][ix[i]])
  }

  lemma CharsOfPrefix(charsets: seq<bytes>, ix: seq<nat>)
    requires charsets != [] && InBounds(ix, Sizes(charsets))
    ensures var k := |charsets| - 1;
      && InBounds(ix[..k], Sizes(charsets[..k])) && ix[k] < |charsets[k]|
      && CharsOf(charsets, ix) == CharsOf(charsets[..k], ix[..k]) + [charsets[k][ix[k]]]
  {
    var k := |charsets| - 1;
    assert ix[k] < Sizes(charsets)[k];
    forall i | 0 <= i < k ensures ix[..k][i] < Sizes(charsets[..k])[i] { assert ix[i] < Sizes(charsets)[i]; }
  }

  lemma {:induction false} PushAllDraws(words: seq<Word>, charsets: seq<bytes>)
    ensures var drawn := DrawAll(Sizes(charsets), words);
      PushAll(words, charsets) == Spelled(drawn, if drawn.0.Ok? then CharsOf(charsets, drawn.0.value) else [])
  {
    if charsets != [] {
      var k := |charsets| - 1;
      var head := charsets[..k];
      PushAllDraws(words, head);
      assert Sizes(charsets) == Sizes(head) + [|charsets[k]|];
      var before, drawn := DrawAll(Sizes(head), words), DrawAll(Sizes(charsets), words);
      PushDraws(Sizes(head), words, if before.0.Ok? then CharsOf(head, before.0.value) else [], charsets[k]);
      if drawn.0.Ok? { CharsOfPrefix(charsets, drawn.0.value); }
    }
  }

  lemma PushFour(words: seq<Word>, a: bytes, b: bytes, d: bytes, e: bytes)
    ensures PushAll(words, [a, b, d, e]) == Push(Push(Push(Push((Ok([]), words), a), b), d), e)
  {
    PushOneMore(words, [], a);
    PushOneMore(words, [a], b);
    PushOneMore(words, [a, b], d);
    PushOneMore(words, [a, b, d], e);
    assert [] + [a] == [a] && [a] + [b] == [a, b] && [a, b] + [d] == [a, b, d] && [a, b, d] + [e] == [a, b, d, e];
  }

  lemma PushOneMore(words: seq<Word>, charsets: seq<bytes>, charset: bytes)
    ensures PushAll(words, charsets + [charset]) == Push(PushAll(words, charsets), charset)
  {
    var longer := charsets + [charset];
    assert longer[..|longer| - 1] == charsets;
  }

  lemma FourDraws(q: Classes, words: seq<Word>)
    ensures var drawn := DrawAll(SeedBounds(q), words);
      Push(Push(Push(Push((Ok([]), words), q.lower), q.upper), q.digit), q.symbol) ==
        Spelled(drawn, if drawn.0.Ok? then SeedsOf(q, drawn.0.value) else [])
  {
    var charsets := [q.lower, q.upper, q.digit, q.symbol];
    PushFour(words, q.lower, q.upper, q.digit, q.symbol);
    PushAllDraws(words, charsets);
    assert Sizes(charsets) == SeedBounds(q);
    var drawn := DrawAll(SeedBounds(q), words);
    if drawn.0.Ok? { assert CharsOf(charsets, drawn.0.value) == SeedsOf(q, drawn.0.value); }
  }

  lemma SeedsDraw(words: seq<Word>)
    ensures var drawn := DrawAll(SeedBounds(CHARSETS), words);
      Seeds(words) == Spelled(drawn, if drawn.0.Ok? then SeedsOf(CHARSETS, drawn.0.value) else [])
  {
    FourDraws(CHARSETS, words);
  }

  lemma CharsGrow(charset: bytes, i: nat, ix: seq<nat>)
    requires i < |charset| && InBounds(ix, Repeated(|ix|, |charset|))
    ensures InBounds([i] + ix, Repeated(|ix| + 1, |charset|))
    ensures Chars(charset, [i] + ix) == [charset[i]] + Chars(charset, ix)
  {
  }

  lemma {:induction false} FillDraws(p: bytes, length: nat, words: seq<Word>)
    requires |p| <= length
    ensures var drawn := DrawAll(Repeated(length - |p|, |COMBINED|), words);
      Fill(p, length, words) == Spelled(drawn, p + if drawn.0.Ok? then Chars(COMBINED, drawn.0.value) else [])
    decreases length - |p|
  {
    var m := length - |p|;
    if m == 0 {
      assert p + Chars(COMBINED, []) == p;
    } else {
      assert Repeated(m, |COMBINED|)[1..] == Repeated(m - 1, |COMBINED|);
      var (drawn, rest) := Draw(|COMBINED|, words);
      if drawn.Ok? {
        var longer := p + [COMBINED[drawn.value]];
        FillDraws(longer, length, rest);
        var more := DrawAll(Repeated(m - 1, |COMBINED|), rest).0;
        if more.Ok? {
          CharsGrow(COMBINED, drawn.value, more.value);
          assert longer + Chars(COMBINED, more.value) == p + Chars(COMBINED, [drawn.value] + more.value);
        }
      }
    }
  }

  lemma {:induction false} ShuffleDraws(s: bytes, k: nat, words: seq<Word>)
    requires k <= |s|
    ensures var drawn := DrawAll(Downwards(k), words);
      && DrawnChoices(k, words) == (if drawn.0.Err? then None else Some(ByPosition(drawn.0.value, k)))
      && ShuffleDrawn(s, k, words).1 == (if drawn.0.Err? then Err(drawn.0.error) else Ok(()))
      && ShuffleDrawn(s, k, words).2 == drawn.1
    decreases k
  {
    if k > 1 {
      assert Downwards(k)[1..] == Downwards(k - 1);
      var (drawn, rest) := Draw(k, words);
      if drawn.Ok? {
        ShuffleDraws(Swap(s, k - 1, drawn.value), k - 1, rest);
        var more := DrawAll(Downwards(k - 1), rest).0;
        if more.Ok? { assert ([drawn.value] + more.value)[1..] == more.value; }
      }
    }
  }

  /** What a successful shuffle leaves, in terms of its draws. */
  lemma ShuffledByDraws(p: bytes, words: seq<Word>)
    ensures var drawn := DrawAll(Downwards(|p|), words);
      drawn.0.Ok? ==> ShuffleDrawn(p, |p|, words).0 == Shuffle(p, ByPosition(drawn.0.value, |p|), |p|)
  {
    ShuffleDraws(p, |p|, words);
    ShuffleDrawnIsShuffle(p, |p|, words, []);
    var drawn := DrawAll(Downwards(|p|), words);
    if drawn.0.Ok? { assert ByPosition(drawn.0.value, |p|) + [] == ByPosition(drawn.0.value, |p|); }
  }

  lemma FilledParts(q: Classes, n: nat, seeds: seq<nat>, more: seq<nat>)
    requires n >= 4 && InBounds(seeds, SeedBounds(q)) && InBounds(more, Repeated(n - 4, |All(q)|))
    ensures InBounds(seeds + more, FrontBounds(q, n))
    ensures Filled(q, seeds + more, n) == SeedsOf(q, seeds) + Chars(All(q), more)
  {
    assert (seeds + more)[..4] == seeds && (seeds + more)[4..] == more;
  }

  /** The characters before the shuffle, with the words left. */
  lemma FrontDraws(n: nat, words: seq<Word>)
    requires n >= 4
    ensures var (seeded, words1) := Seeds(words);
      var drawn := DrawAll(FrontBounds(CHARSETS, n), words);
      (if seeded.Err? then (Err(seeded.error), words1) else Fill(seeded.value, n, words1)) ==
        Spelled(drawn, if drawn.0.Ok? then Filled(CHARSETS, drawn.0.value, n) else [])
  {
    var fill := Repeated(n - 4, |All(CHARSETS)|);
    DrawAllSplit(SeedBounds(CHARSETS), fill, words);
    SeedsDraw(words);
    var (seeds, words1) := DrawAll(SeedBounds(CHARSETS), words);
    if seeds.Ok? {
      FillDraws(SeedsOf(CHARSETS, seeds.value), n, words1);
      var (more, words2) := DrawAll(fill, words1);
      if more.Ok? { FilledParts(CHARSETS, n, seeds.value, more.value); }
    }
  }

  /** The generator returns what its draws spell, shuffled by the swap indices it draws after that; and it fails exactly
      if a draw does. */
  lemma GenerateDraws(length: nat, words: seq<Word>)
    requires ValidLength(RequestedLength(length))
    ensures var drawn := DrawAll(Bounds(CHARSETS, RequestedLength(length)), words);
      Generate(length, words) ==
        Spelled(drawn, if drawn.0.Ok? then Password(CHARSETS, drawn.0.value, RequestedLength(length)) else [])
  {
    var n := RequestedLength(length);
    GeneratedMeetsPolicy(length, words);
    DrawAllSplit(FrontBounds(CHARSETS, n), Downwards(n), words);
    FrontDraws(n, words);
    var (front, words1) := DrawAll(FrontBounds(CHARSETS, n), words);
    if front.Ok? {
      var p := Filled(CHARSETS, front.value, n);
      ShuffleDraws(p, n, words1);
      ShuffledByDraws(p, words1);
      var swaps := DrawAll(Downwards(n), words1).0;
      if swaps.Ok? { PasswordParts(CHARSETS, n, front.value, swaps.value); }
    }
  }

  lemma PasswordParts(q: Classes, n: nat, front: seq<nat>, swaps: seq<nat>)
    requires n >= 4 && InBounds(front, FrontBounds(q, n)) && InBounds(swaps, Downwards(n))
    ensures InBounds(front + swaps, Bounds(q, n))
    ensures Password(q, front + swaps, n) == Shuffle(Filled(q, front, n), ByPosition(swaps, n), n)
  {
    assert (front + swaps)[..n] == front && (front + swaps)[n..] == swaps;
    forall i | 0 <= i < |front + swaps| ensures (front + swaps)[i] < Bounds(q, n)[i] {
      if i >= n { assert swaps[i - n] < Downwards(n)[i - n]; }
    }
  }

  // ---- every conforming string is generated ----

  predicate Within(at: seq<nat>, n: nat) {
    forall i :: 0 <= i < |at| ==> at[i] < n
  }

  function Pick(s: bytes, at: seq<nat>): (t: bytes)
    requires Within(at, |s|)
    ensures |t| == |at| && forall i :: 0 <= i < |at| ==> t[i] == s[at[i]]
  {
    seq(|at|, i requires 0 <= i < |at| => s[at[i]])
  }

  lemma {:induction false} ShuffleWithin(at: seq<nat>, c: seq<nat>, k: nat, n: nat)
    requires Within(at, n) && ChoiceVector(c, |at|) && k <= |at|
    ensures Within(Shuffle(at, c, k), n)
    decreases k
  {
    if k > 1 { ShuffleWithin(Swap(at, k - 1, c[k - 1]), c, k - 1, n); }
  }

  /** Shuffling the characters is shuffling their positions. */
  lemma {:induction false} ShufflePicks(s: bytes, at: seq<nat>, c: seq<nat>, k: nat)
    requires Within(at, |s|) && ChoiceVector(c, |at|) && k <= |at| && Within(Shuffle(at, c, k), |s|)
    ensures Shuffle(Pick(s, at), c, k) == Pick(s, Shuffle(at, c, k))
    decreases k
  {
    if k > 1 {
      var swapped := Swap(at, k - 1, c[k - 1]);
      assert Swap(Pick(s, at), k - 1, c[k - 1]) == Pick(s, swapped);
      ShufflePicks(s, swapped, c, k - 1);
    }
  }

  function Positions(n: nat): (at: seq<nat>)
    ensures |at| == n && forall i :: 0 <= i < n ==> at[i] == i
  {
    seq(n, i => i)
  }

  /** Positions can be arranged with any given ones in front. */
  lemma {:induction false} InFront(n: nat, front: seq<nat>) returns (at: seq<nat>)
    requires Distinct(front) && |front| <= n && Within(front, n)
    ensures multiset(at) == multiset(Positions(n)) && Distinct(at) && front <= at
  {
    if front == [] {
      at := Positions(n);
    } else {
      var k := |front| - 1;
      var before := InFront(n, front[..k]);
      assert |before| == |multiset(before)| == |multiset(Positions(n))| == n;
      assert front[k] == Positions(n)[front[k]];
      assert front[k] in multiset(Positions(n));
      assert front[k] in before;
      var j: nat :| j < |before| && before[j] == front[k];
      assert forall i :: 0 <= i < k ==> before[i] == front[i];
      assert j >= k;
      SwapKeeps(before, k, j);
      at := Swap(before, k, j);
    }
  }

  /** Such an arrangement lists each position once. */
  lemma PositionsArranged(n: nat, at: seq<nat>)
    requires multiset(at) == multiset(Positions(n)) && Distinct(at)
    ensures |at| == n && Within(at, n) && Arranges(at, Positions(n))
  {
    assert |at| == |multiset(at)| == |multiset(Positions(n))| == n;
    forall i | 0 <= i < n ensures at[i] < n {
      assert at[i] in multiset(Positions(n));
      assert at[i] in Positions(n);
    }
    forall x | x in Positions(n) ensures x in at { assert x in multiset(at); }
  }

  function IndexIn(charset: bytes, b: byte): (i: nat)
    requires b in charset
    ensures i < |charset| && charset[i] == b
  {
    if charset[0] == b then 0 else IndexIn(charset[1..], b) + 1
  }

  /** The draws for given swap indices. */
  function ToDraw(c: seq<nat>, k: nat): (js: seq<nat>)
    requires ChoiceVector(c, |c|) && k <= |c|
    ensures InBounds(js, Downwards(k))
  {
    if k <= 1 then [] else [c[k - 1]] + ToDraw(c, k - 1)
  }

  lemma {:induction false} DrawnByPosition(c: seq<nat>, k: nat)
    requires ChoiceVector(c, |c|) && k <= |c|
    ensures ByPosition(ToDraw(c, k), k) == c[..k]
  {
    if k == 1 {
      assert c[0] <= 0;
      assert c[..1] == [0];
    } else if k > 1 {
      DrawnByPosition(c, k - 1);
      var js := ToDraw(c, k);
      assert js[1..] == ToDraw(c, k - 1);
      ByPositionStep(js, k);
      assert c[..k] == c[..k - 1] + [c[k - 1]];
    }
  }

  lemma ByPositionStep(js: seq<nat>, k: nat)
    requires k > 1 && InBounds(js, Downwards(k))
    ensures InBounds(js[1..], Downwards(k - 1)) && ByPosition(js, k) == ByPosition(js[1..], k - 1) + [js[0]]
  {
    assert Downwards(k)[1..] == Downwards(k - 1);
    forall i | 0 <= i < |js| - 1 ensures js[1..][i] < Downwards(k - 1)[i] { assert js[i + 1] < Downwards(k)[i + 1]; }
  }

  /** A string over the four charsets that holds a character of each. */
  predicate Spellable(q: Classes, t: bytes) {
    && (forall i :: 0 <= i < |t| ==> t[i] in All(q))
    && (exists i :: 0 <= i < |t| && t[i] in q.lower) && (exists i :: 0 <= i < |t| && t[i] in q.upper)
    && (exists i :: 0 <= i < |t| && t[i] in q.digit) && (exists i :: 0 <= i < |t| && t[i] in q.symbol)
  }

  predicate Led(q: Classes, f: bytes) {
    |f| >= 4 && f[0] in q.lower && f[1] in q.upper && f[2] in q.digit && f[3] in q.symbol
  }

  /** No character is in two classes. */
  ghost predicate Apart(q: Classes) {
    forall b: byte ::
      && !(b in q.lower && (b in q.upper || b in q.digit || b in q.symbol))
      && !(b in q.upper && (b in q.digit || b in q.symbol)) && !(b in q.digit && b in q.symbol)
  }

  /** The draws that fill in a string led by one character of each class. */
  lemma DrawsFor(q: Classes, f: bytes) returns (ix: seq<nat>)
    requires Led(q, f) && forall i :: 0 <= i < |f| ==> f[i] in All(q)
    ensures InBounds(ix, FrontBounds(q, |f|)) && Filled(q, ix, |f|) == f
  {
    var seeds := [IndexIn(q.lower, f[0]), IndexIn(q.upper, f[1]), IndexIn(q.digit, f[2]), IndexIn(q.symbol, f[3])];
    var more := seq(|f| - 4, i requires 0 <= i < |f| - 4 => IndexIn(All(q), f[4 + i]));
    ix := seeds + more;
    FilledParts(q, |f|, seeds, more);
    assert f == SeedsOf(q, seeds) + Chars(All(q), more);
  }

  lemma FourDistinct(a: nat, b: nat, d: nat, e: nat)
    requires a != b && a != d && a != e && b != d && b != e && d != e
    ensures Distinct([a, b, d, e])
  {
  }

  /** Some arrangement of the positions puts one character of each class in front. */
  lemma ClassesInFront(q: Classes, t: bytes) returns (at: seq<nat>)
    requires Apart(q) && Spellable(q, t) && |t| >= 4
    ensures Distinct(at) && |at| == |t| && Within(at, |t|) && Arranges(at, Positions(|t|)) && Led(q, Pick(t, at))
  {
    var l: nat :| l < |t| && t[l] in q.lower;
    var u: nat :| u < |t| && t[u] in q.upper;
    var d: nat :| d < |t| && t[d] in q.digit;
    var y: nat :| y < |t| && t[y] in q.symbol;
    FourDistinct(l, u, d, y);
    at := InFront(|t|, [l, u, d, y]);
    PositionsArranged(|t|, at);
    FrontAt(at, l, u, d, y);
  }

  lemma FrontAt(at: seq<nat>, a: nat, b: nat, d: nat, e: nat)
    requires [a, b, d, e] <= at
    ensures at[0] == a && at[1] == b && at[2] == d && at[3] == e
  {
    var front := [a, b, d, e];
    assert forall i :: 0 <= i < 4 ==> at[i] == front[i];
  }

  /** The draws that generate a given string. */
  lemma DrawsSpelling(q: Classes, t: bytes) returns (ix: seq<nat>)
    requires Apart(q) && Spellable(q, t) && |t| >= 4
    ensures InBounds(ix, Bounds(q, |t|)) && Password(q, ix, |t|) == t
  {
    var n := |t|;
    var at := ClassesInFront(q, t);
    var head := DrawsFor(q, Pick(t, at));
    var c := ChoicesFor(at, Positions(n), n);
    ShuffleIsBijective(at, Positions(n), c, c);
    ShufflePicks(t, at, c, n);
    DrawnByPosition(c, n);
    assert c[..n] == c;
    assert Pick(t, Positions(n)) == t;
    ix := head + ToDraw(c, n);
    PasswordParts(q, n, head, ToDraw(c, n));
  }

  lemma {:induction false} DownwardsSmall(k: nat)
    requires k <= 128
    ensures forall i :: 0 <= i < |Downwards(k)| ==> Downwards(k)[i] <= 128
  {
    if k > 1 { DownwardsSmall(k - 1); }
  }

  lemma SmallBounds(q: Classes, n: nat)
    requires 4 <= n <= 128 && |All(q)| <= 128
    ensures forall i :: 0 <= i < |Bounds(q, n)| ==> Bounds(q, n)[i] <= 128
  {
    DownwardsSmall(n);
  }

  lemma CharsetsApart()
    ensures Apart(CHARSETS) && |All(CHARSETS)| == 81 && All(CHARSETS) == COMBINED
  {
    CharsetClasses();
  }

  lemma SpelledByWords(length: nat, t: bytes) returns (words: seq<Word>)
    requires ValidLength(RequestedLength(length)) && |t| == RequestedLength(length) && Spellable(CHARSETS, t)
    ensures Generate(length, words).0 == Ok(t)
  {
    CharsetsApart();
    var ix := DrawsSpelling(CHARSETS, t);
    SmallBounds(CHARSETS, |t|);
    words := AsWords(ix, Bounds(CHARSETS, |t|));
    DrawAllIndices(Bounds(CHARSETS, |t|), ix, words);
    GenerateDraws(length, words);
  }

  function AsWords(ix: seq<nat>, bounds: seq<nat>): (words: seq<Word>)
    requires InBounds(ix, bounds) && forall i :: 0 <= i < |bounds| ==> bounds[i] <= 128
    ensures |words| == |ix| && forall i :: 0 <= i < |ix| ==> words[i] == ix[i]
  {
    seq(|ix|, i requires 0 <= i < |ix| => assert ix[i] < bounds[i]; ix[i])
  }

  lemma FilledSpellable(q: Classes, ix: seq<nat>, n: nat)
    requires n >= 4 && InBounds(ix, FrontBounds(q, n))
    ensures Spellable(q, Filled(q, ix, n))
  {
    FrontSplits(q, ix, n);
    var p := Filled(q, ix, n);
    assert p[0] in q.lower && p[1] in q.upper && p[2] in q.digit && p[3] in q.symbol;
  }

  lemma SpellableOfMultiset(q: Classes, p: bytes, r: bytes)
    requires multiset(p) == multiset(r) && Spellable(q, p)
    ensures Spellable(q, r)
  {
    var l :| 0 <= l < |p| && p[l] in q.lower;
    var u :| 0 <= u < |p| && p[u] in q.upper;
    var d :| 0 <= d < |p| && p[d] in q.digit;
    var y :| 0 <= y < |p| && p[y] in q.symbol;
    Occurs(p, r, l);
    Occurs(p, r, u);
    Occurs(p, r, d);
    Occurs(p, r, y);
    forall i | 0 <= i < |r| ensures r[i] in All(q) { Occurs(r, p, i); }
  }

  lemma PasswordSpellable(q: Classes, ix: seq<nat>, n: nat)
    requires n >= 4 && InBounds(ix, Bounds(q, n))
    ensures Spellable(q, Password(q, ix, n))
  {
    SplitBounds(q, ix, n);
    FilledSpellable(q, ix[..n], n);
    ShuffleArranges(Filled(q, ix[..n], n), ByPosition(ix[n..], n), n);
    SpellableOfMultiset(q, Filled(q, ix[..n], n), Password(q, ix, n));
  }

  /** Main theorem. For a request of 16 to 128 characters (24 if none is given), the generator can return exactly the
      strings of that length over its four charsets that hold a character of each, in any order: each is returned for
      some random words, and nothing else for any; for every other request it returns none. */
  lemma GeneratedExactly(length: nat, t: bytes)
    ensures (exists words :: Generate(length, words).0 == Ok(t)) <==>
      |t| == (if length == 0 then 24 else length) && 16 <= |t| <= 128 && Spellable(CHARSETS, t)
  {
    var n := RequestedLength(length);
    if words :| Generate(length, words).0 == Ok(t) {
      GeneratedMeetsPolicy(length, words);
      GenerateDraws(length, words);
      PasswordSpellable(CHARSETS, DrawAll(Bounds(CHARSETS, n), words).0.value, n);
    }
    if |t| == n && ValidLength(n) && Spellable(CHARSETS, t) {
      var words := SpelledByWords(length, t);
    }
  }
}
