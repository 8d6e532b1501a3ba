/** Password generation, the password policy and the strength score. */
module Passwords {
  import opened Types
  import opened Sampling

  const MIN_LENGTH := 16
  const MAX_LENGTH := 128
  const DEFAULT_LENGTH := 24
  const STRENGTH_MAX := 100
  const U16_MAX := 0xffff

  function Octet(c: char): byte
    requires c < '\U{100}'
  {
    c as int
  }

  function Ascii(s: string): (b: bytes)
    requires forall c :: c in s ==> c < '\U{100}'
    ensures |b| == |s| && forall i :: 0 <= i < |s| ==> b[i] as int == s[i] as int
  {
    seq(|s|, i requires 0 <= i < |s| => assert s[i] in s; Octet(s[i]))
  }

  const LOWERCASE: bytes := Ascii("abcdefghijkmnopqrstuvwxyz")
  const UPPERCASE: bytes := Ascii("ABCDEFGHJKLMNPQRSTUVWXYZ")
  const DIGITS: bytes := Ascii("23456789")
  const SYMBOLS: bytes := Ascii("!@#$%^&*()-_=+[]{}:;,.?/")
  const COMBINED: bytes := LOWERCASE + UPPERCASE + DIGITS + SYMBOLS

  predicate IsLower(b: byte) { 'a' as int <= b <= 'z' as int }

  predicate IsUpper(b: byte) { 'A' as int <= b <= 'Z' as int }

  predicate IsDigit(b: byte) { '0' as int <= b <= '9' as int }

  /** Space, tab, line feed, form feed and carriage return, but not the vertical tab. */
  predicate IsSpace(b: byte) { b == 32 || b == 9 || b == 10 || b == 12 || b == 13 }

  predicate IsSymbol(b: byte) { !IsLower(b) && !IsUpper(b) && !IsDigit(b) && !IsSpace(b) }

  predicate HasLower(p: bytes) { exists i :: 0 <= i < |p| && IsLower(p[i]) }

  predicate HasUpper(p: bytes) { exists i :: 0 <= i < |p| && IsUpper(p[i]) }

  predicate HasDigit(p: bytes) { exists i :: 0 <= i < |p| && IsDigit(p[i]) }

  predicate HasSymbol(p: bytes) { exists i :: 0 <= i < |p| && IsSymbol(p[i]) }

  predicate HasSpace(p: bytes) { exists i :: 0 <= i < |p| && IsSpace(p[i]) }

  predicate ValidLength(n: nat) { MIN_LENGTH <= n <= MAX_LENGTH }

  predicate MeetsPolicy(p: bytes) {
    ValidLength(|p|) && !HasSpace(p) && HasLower(p) && HasUpper(p) && HasDigit(p) && HasSymbol(p)
  }

  function ValidatePolicy(p: bytes): Result<()> {
    if MeetsPolicy(p) then Ok(()) else Err(Validation)
  }

  // ---- generation ----

  function Sample(charset: bytes, words: seq<Word>): (r: (Result<byte>, seq<Word>))
    ensures r.0.Ok? ==> r.0.value in charset
  {
    var (drawn, rest) := Draw(|charset|, words);
    match drawn
    case Err(e) => (Err(e), rest)
    case Ok(i) => (Ok(charset[i]), rest)
  }

  type Partial = (Result<bytes>, seq<Word>)

  /** Appending one character of `charset` to what was drawn so far. */
  function Push(d: Partial, charset: bytes): (r: Partial)
    ensures r.0.Ok? ==>
      d.0.Ok? && |r.0.value| == |d.0.value| + 1 && d.0.value <= r.0.value && r.0.value[|d.0.value|] in charset
  {
    match d.0
    case Err(_) => d
    case Ok(p) =>
      var (drawn, rest) := Sample(charset, d.1);
      match drawn
      case Err(e) => (Err(e), rest)
      case Ok(b) => (Ok(p + [b]), rest)
  }

  /** One character of each class, in fixed order. */
  function Seeds(words: seq<Word>): Partial {
    Push(Push(Push(Push((Ok([]), words), LOWERCASE), UPPERCASE), DIGITS), SYMBOLS)
  }

  function Fill(p: bytes, length: nat, words: seq<Word>): Partial
    decreases length - |p|
  {
    if |p| >= length then (Ok(p), words)
    else
      var (pushed, rest) := Push((Ok(p), words), COMBINED);
      match pushed
      case Err(e) => (Err(e), rest)
      case Ok(longer) => Fill(longer, length, rest)
  }

  function RequestedLength(length: nat): nat {
    if length == 0 then DEFAULT_LENGTH else length
  }

  /** The password before its final check. */
  function Draft(length: nat, words: seq<Word>): (Result<bytes>, seq<Word>) {
    if !ValidLength(RequestedLength(length)) then (Err(Validation), words)
    else
      var (seeded, words1) := Seeds(words);
      match seeded
      case Err(e) => (Err(e), words1)
      case Ok(seeds) =>
        var (filled, words2) := Fill(seeds, RequestedLength(length), words1);
        match filled
        case Err(e) => (Err(e), words2)
        case Ok(p) =>
          var (shuffled, r, words3) := ShuffleDrawn(p, |p|, words2);
          (match r case Err(e) => Err(e) case Ok(_) => Ok(shuffled), words3)
  }

  function Generate(length: nat, words: seq<Word>): (Result<bytes>, seq<Word>) {
    var (draft, rest) := Draft(length, words);
    match draft
    case Err(e) => (Err(e), rest)
    case Ok(p) => (match ValidatePolicy(p) case Err(e) => Err(e) case Ok(_) => Ok(p), rest)
  }

  method SampleFromCharset(e: Entropy, charset: bytes) returns (r: Result<byte>)
    modifies e
    ensures (r, e.words) == Sample(charset, old(e.words))
  {
    var index := RandomIndex(e, |charset|);
    match index {
      case Err(error) => return Err(error);
      case Ok(i) => return Ok(charset[i]);
    }
  }

  method GeneratePassword(e: Entropy, length: nat) returns (r: Result<bytes>)
    modifies e
    ensures (r, e.words) == Generate(length, old(e.words))
  {
    var requested := if length == 0 then DEFAULT_LENGTH else length;
    if requested < MIN_LENGTH || requested > MAX_LENGTH { return Err(Validation); }
    var password: bytes := [];
    var lower := SampleFromCharset(e, LOWERCASE);
    if lower.Err? { return Err(lower.error); }
    password := password + [lower.value];
    var upper := SampleFromCharset(e, UPPERCASE);
    if upper.Err? { return Err(upper.error); }
    password := password + [upper.value];
    var digit := SampleFromCharset(e, DIGITS);
    if digit.Err? { return Err(digit.error); }
    password := password + [digit.value];
    var symbol := SampleFromCharset(e, SYMBOLS);
    if symbol.Err? { return Err(symbol.error); }
    password := password + [symbol.value];
    assert (Ok(password), e.words) == Seeds(old(e.words));
    ghost var seeds, words1 := password, e.words;
    while |password| < requested
      invariant Fill(password, requested, e.words) == Fill(seeds, requested, words1)
    {
      var sample := SampleFromCharset(e, COMBINED);
      match sample {
        case Err(error) => return Err(error);
        case Ok(b) => password := password + [b];
      }
    }
    var buffer := new byte[|password|](i requires 0 <= i < |password| => password[i]);
    assert buffer[..] == password;
    var shuffled := ShuffleInPlace(buffer, e);
    match shuffled {
      case Err(error) => return Err(error);
      case Ok(_) =>
        var checked := ValidatePolicy(buffer[..]);
        match checked {
          case Err(error) => return Err(error);
          case Ok(_) => return Ok(buffer[..]);
        }
    }
  }

  // ---- the final check cannot fail ----

  lemma LowercaseClass()
    ensures forall b: byte :: b in LOWERCASE <==> IsLower(b) && b != 'l' as int
  {
    forall b: byte | IsLower(b) && b != 'l' as int ensures b in LOWERCASE {
      assert LOWERCASE[if b < 'l' as int then b - 'a' as int else b - 'b' as int] == b;
    }
  }

  lemma UppercaseClass()
    ensures forall b: byte :: b in UPPERCASE <==> IsUpper(b) && b != 'I' as int && b != 'O' as int
  {
    forall b: byte | IsUpper(b) && b != 'I' as int && b != 'O' as int ensures b in UPPERCASE {
      assert UPPERCASE[if b < 'I' as int then b - 'A' as int else if b < 'O' as int then b - 'B' as int
                       else b - 'C' as int] == b;
    }
  }

  lemma DigitClass()
    ensures forall b: byte :: b in DIGITS <==> IsDigit(b) && b >= '2' as int
  {
    forall b: byte | IsDigit(b) && b >= '2' as int ensures b in DIGITS { assert DIGITS[b - '2' as int] == b; }
  }

  lemma SymbolClass()
    ensures forall b :: b in SYMBOLS ==> IsSymbol(b)
  {
  }

  /** The charsets are the letters and digits without `l`, `I`, `O`, `0` and `1`, and some symbols; none holds white
      space. */
  lemma CharsetClasses()
    ensures forall b: byte :: b in LOWERCASE <==> IsLower(b) && b != 'l' as int
    ensures forall b: byte :: b in UPPERCASE <==> IsUpper(b) && b != 'I' as int && b != 'O' as int
    ensures forall b: byte :: b in DIGITS <==> IsDigit(b) && b >= '2' as int
    ensures forall b :: b in SYMBOLS ==> IsSymbol(b)
    ensures forall b :: b in COMBINED ==> !IsSpace(b)
  {
    LowercaseClass();
    UppercaseClass();
    DigitClass();
    SymbolClass();
    forall b | b in COMBINED ensures !IsSpace(b) {
      assert b in LOWERCASE || b in UPPERCASE || b in DIGITS || b in SYMBOLS;
    }
  }

  predicate Seeded(p: bytes) {
    && |p| == 4 && IsLower(p[0]) && IsUpper(p[1]) && IsDigit(p[2]) && IsSymbol(p[3])
  }

  lemma SeedsClasses(words: seq<Word>)
    ensures Seeds(words).0.Ok? ==> Seeded(Seeds(words).0.value)
  {
    CharsetClasses();
    var l := Push((Ok([]), words), LOWERCASE);
    var u := Push(l, UPPERCASE);
    var d := Push(u, DIGITS);
    if Seeds(words).0.Ok? {
      var p := Seeds(words).0.value;
      assert p[0] == l.0.value[0] && p[1] == u.0.value[1] && p[2] == d.0.value[2];
    }
  }

  lemma {:induction false} FillExtends(p: bytes, length: nat, words: seq<Word>)
    requires |p| <= length
    ensures var r := Fill(p, length, words).0;
      r.Ok? ==> |r.value| == length && p <= r.value && forall i :: |p| <= i < length ==> r.value[i] in COMBINED
    decreases length - |p|
  {
    if |p| < length {
      var (pushed, rest) := Push((Ok(p), words), COMBINED);
      if pushed.Ok? { FillExtends(pushed.value, length, rest); }
    }
  }

  lemma {:induction false} DrawnShuffleKeeps(p: bytes, k: nat, words: seq<Word>)
    requires k <= |p|
    ensures multiset(ShuffleDrawn(p, k, words).0) == multiset(p)
    decreases k
  {
    if k > 1 {
      var (drawn, rest) := Draw(k, words);
      if drawn.Ok? {
        SwapKeeps(p, k - 1, drawn.value);
        DrawnShuffleKeeps(Swap(p, k - 1, drawn.value), k - 1, rest);
      }
    }
  }

  /** The policy looks only at which characters occur, so any rearrangement of a conforming password conforms. */
  lemma PolicyOfMultiset(p: bytes, q: bytes)
    requires multiset(p) == multiset(q)
    ensures MeetsPolicy(p) ==> MeetsPolicy(q)
  {
    assert |p| == |multiset(p)| == |multiset(q)| == |q|;
    if MeetsPolicy(p) {
      var l :| 0 <= l < |p| && IsLower(p[l]);
      var u :| 0 <= u < |p| && IsUpper(p[u]);
      var d :| 0 <= d < |p| && IsDigit(p[d]);
      var y :| 0 <= y < |p| && IsSymbol(p[y]);
      Occurs(p, q, l);
      Occurs(p, q, u);
      Occurs(p, q, d);
      Occurs(p, q, y);
      forall i | 0 <= i < |q| ensures !IsSpace(q[i]) { Occurs(q, p, i); }
    }
  }

  lemma Occurs(p: bytes, q: bytes, i: nat)
    requires multiset(p) == multiset(q) && i < |p|
    ensures exists j :: 0 <= j < |q| && q[j] == p[i]
  {
    assert p[i] in multiset(q);
  }

  /** Main result. Whatever the random words, the final check never rejects what was drawn; so generation fails only for
      a length outside the policy or when the random source fails, and otherwise meets the policy at the requested
      length. */
  lemma GeneratedMeetsPolicy(length: nat, words: seq<Word>)
    ensures Generate(length, words) == Draft(length, words)
    ensures var (r, rest) := Generate(length, words);
      if r.Ok? then MeetsPolicy(r.value) && |r.value| == RequestedLength(length)
      else !ValidLength(RequestedLength(length)) || rest == []
  {
    if ValidLength(RequestedLength(length)) {
      SeedsClasses(words);
      var (seeded, words1) := Seeds(words);
      SeedsExhaust(words);
      if seeded.Ok? {
        var (filled, words2) := Fill(seeded.value, RequestedLength(length), words1);
        FillExtends(seeded.value, RequestedLength(length), words1);
        FillExhausts(seeded.value, RequestedLength(length), words1);
        if filled.Ok? {
          CharsetClasses();
          FilledMeetsPolicy(seeded.value, filled.value);
          DrawnShuffleKeeps(filled.value, |filled.value|, words2);
          ShuffleExhausts(filled.value, |filled.value|, words2);
          PolicyOfMultiset(filled.value, ShuffleDrawn(filled.value, |filled.value|, words2).0);
        }
      }
    }
  }

  lemma FilledMeetsPolicy(seeds: bytes, p: bytes)
    requires Seeded(seeds) && seeds <= p && ValidLength(|p|)
    requires forall i :: |seeds| <= i < |p| ==> !IsSpace(p[i])
    ensures MeetsPolicy(p)
  {
    assert IsLower(p[0]) && IsUpper(p[1]) && IsDigit(p[2]) && IsSymbol(p[3]);
    forall i | 0 <= i < |p| ensures !IsSpace(p[i]) {
      assert i < 4 ==> p[i] == seeds[i];
    }
  }

  // ---- drawing fails only when the source does ----

  lemma {:induction false} DrawExhausts(bound: nat, words: seq<Word>)
    requires 0 < bound <= U32_MAX
    ensures Draw(bound, words).0.Err? ==> Draw(bound, words).1 == []
  {
    if words != [] { DrawExhausts(bound, words[1..]); }
  }

  lemma PushExhausts(d: Partial, charset: bytes)
    requires 0 < |charset| <= U32_MAX && (d.0.Err? ==> d.1 == [])
    ensures Push(d, charset).0.Err? ==> Push(d, charset).1 == []
  {
    DrawExhausts(|charset|, d.1);
  }

  lemma SeedsExhaust(words: seq<Word>)
    ensures Seeds(words).0.Err? ==> Seeds(words).1 == []
  {
    var l := Push((Ok([]), words), LOWERCASE);
    var u := Push(l, UPPERCASE);
    var d := Push(u, DIGITS);
    PushExhausts((Ok([]), words), LOWERCASE);
    PushExhausts(l, UPPERCASE);
    PushExhausts(u, DIGITS);
    PushExhausts(d, SYMBOLS);
  }

  lemma {:induction false} FillExhausts(p: bytes, length: nat, words: seq<Word>)
    requires |p| <= length
    ensures Fill(p, length, words).0.Err? ==> Fill(p, length, words).1 == []
    decreases length - |p|
  {
    if |p| < length {
      PushExhausts((Ok(p), words), COMBINED);
      var (pushed, rest) := Push((Ok(p), words), COMBINED);
      if pushed.Ok? { FillExhausts(pushed.value, length, rest); }
    }
  }

  lemma {:induction false} ShuffleExhausts(p: bytes, k: nat, words: seq<Word>)
    requires k <= |p| <= U32_MAX
    ensures ShuffleDrawn(p, k, words).1.Err? ==> ShuffleDrawn(p, k, words).2 == []
    decreases k
  {
    if k > 1 {
      DrawExhausts(k, words);
      var (drawn, rest) := Draw(k, words);
      if drawn.Ok? { ShuffleExhausts(Swap(p, k - 1, drawn.value), k - 1, rest); }
    }
  }

  // ---- the strength score ----

  function LengthPoints(n: nat): nat {
    (if n >= 8 then 10 else 0) + (if n >= 12 then 15 else 0)
      + (if n >= MIN_LENGTH then 20 else 0) + (if n >= 24 then 15 else 0)
  }

  function ClassPoints(p: bytes): nat {
    (if HasLower(p) then 10 else 0) + (if HasUpper(p) then 10 else 0) + (if HasDigit(p) then 10 else 0) +
    (if HasSymbol(p) then 10 else 0)
  }

  function Values(p: bytes): set<byte> {
    set i | 0 <= i < |p| :: p[i]
  }

  lemma ValuesExtend(p: bytes, k: nat)
    requires k < |p|
    ensures Values(p[..k + 1]) == Values(p[..k]) + {p[k]}
    ensures |Values(p[..k + 1])| == |Values(p[..k])| + if p[k] in Values(p[..k]) then 0 else 1
  {
    var q := p[..k + 1];
    assert forall i :: 0 <= i < k ==> q[i] == p[..k][i];
    assert q[k] == p[k];
    forall b | b in Values(p[..k]) ensures b in Values(q) {
      var i :| 0 <= i < k && p[..k][i] == b;
      assert q[i] == b;
    }
    assert Values(q) == Values(p[..k]) + {p[k]};
    if p[k] in Values(p[..k]) { assert Values(q) == Values(p[..k]); }
  }

  /** Length and classes, ten points when at least half of the characters differ, ten off for white space, at most
      100. */
  function Score(p: bytes): Result<nat> {
    if p == [] || |p| > U16_MAX then Err(Validation)
    else
      var varied := LengthPoints(|p|) + ClassPoints(p) + if 2 * |Values(p)| >= |p| then 10 else 0;
      var score := if HasSpace(p) && varied >= 10 then varied - 10 else varied;
      Ok(if score < STRENGTH_MAX then score else STRENGTH_MAX)
  }

  /** The number of different bytes, marking each as seen. */
  method CountUnique(p: bytes) returns (uniqueCount: nat)
    ensures uniqueCount == |Values(p)|
  {
    var seen := new bool[256](_ => false);
    uniqueCount := 0;
    var k := 0;
    assert Values(p[..0]) == {};
    while k < |p|
      invariant 0 <= k <= |p|
      invariant forall b: byte :: seen[b] <==> b in Values(p[..k])
      invariant uniqueCount == |Values(p[..k])|
    {
      ValuesExtend(p, k);
      if !seen[p[k]] {
        seen[p[k]] := true;
        uniqueCount := uniqueCount + 1;
      }
      k := k + 1;
    }
    assert p[..k] == p;
  }

  method ScorePasswordStrength(p: bytes) returns (r: Result<nat>)
    ensures r == Score(p)
  {
    if |p| == 0 { return Err(Validation); }
    var score := LengthPoints(|p|) + ClassPoints(p);
    var uniqueCount := CountUnique(p);
    if |p| > U16_MAX { return Err(Validation); }
    var doubled := if uniqueCount * 2 > U16_MAX then U16_MAX else uniqueCount * 2;
    if doubled >= |p| { score := score + 10; }
    if HasSpace(p) && score >= 10 { score := score - 10; }
    return Ok(if score < STRENGTH_MAX then score else STRENGTH_MAX);
  }

  datatype Class = Lower | Upper | Digit | Symbol

  function ClassOf(b: byte): Option<Class> {
    if IsLower(b) then Some(Lower)
    else if IsUpper(b) then Some(Upper)
    else if IsDigit(b) then Some(Digit)
    else if IsSymbol(b) then Some(Symbol)
    else None
  }

  /** The classes that occur in a password. */
  function ClassesIn(p: bytes): set<Class> {
    set i | 0 <= i < |p| && ClassOf(p[i]).Some? :: ClassOf(p[i]).value
  }

  lemma ClassOccurs(p: bytes, c: Class)
    ensures c in ClassesIn(p) <==> exists i :: 0 <= i < |p| && ClassOf(p[i]) == Some(c)
  {
  }

  lemma ClassPointsCount(p: bytes)
    ensures ClassPoints(p) == 10 * |ClassesIn(p)|
  {
    ClassOccurs(p, Lower);
    ClassOccurs(p, Upper);
    ClassOccurs(p, Digit);
    ClassOccurs(p, Symbol);
    assert HasLower(p) <==> Lower in ClassesIn(p);
    assert HasUpper(p) <==> Upper in ClassesIn(p);
    assert HasDigit(p) <==> Digit in ClassesIn(p);
    assert HasSymbol(p) <==> Symbol in ClassesIn(p);
    CountClasses(ClassesIn(p));
  }

  lemma CountClasses(s: set<Class>)
    ensures |s| == (if Lower in s then 1 else 0) + (if Upper in s then 1 else 0) + (if Digit in s then 1 else 0)
                   + (if Symbol in s then 1 else 0)
  {
    var s1 := s - {Lower};
    var s2 := s1 - {Upper};
    var s3 := s2 - {Digit};
    var s4 := s3 - {Symbol};
    CountOne(s, Lower);
    CountOne(s1, Upper);
    CountOne(s2, Digit);
    CountOne(s3, Symbol);
    forall c | c in s4 ensures false {
      match c case Lower => case Upper => case Digit => case Symbol =>
    }
    assert s4 == {};
  }

  lemma CountOne(s: set<Class>, c: Class)
    ensures |s| == |s - {c}| + if c in s then 1 else 0
  {
    if c in s { assert s == (s - {c}) + {c}; } else { assert s == s - {c}; }
  }

  /** What the length alone earns. */
  function LengthGrade(n: nat): nat {
    if n < 8 then 0 else if n < 12 then 10 else if n < 16 then 25 else if n < 24 then 45 else 60
  }

  /** The score of any password: the grade of its length, ten points for each class that occurs, ten if at least half of
      the characters differ, ten off for white space, from 0 to 100; the empty one and those over 65535 bytes have
      none. */
  lemma ScoreExactly(p: bytes)
    ensures var points := LengthGrade(|p|) + 10 * |ClassesIn(p)| + (if 2 * |Values(p)| >= |p| then 10 else 0)
                          - (if HasSpace(p) then 10 else 0);
      Score(p) ==
        if |p| == 0 || |p| > 65535 then Err(Validation)
        else Ok(if points < 0 then 0 else if points > 100 then 100 else points)
  {
    ClassPointsCount(p);
    assert forall i :: 0 <= i < |p| && IsSpace(p[i]) ==> !IsLower(p[i]);
  }

  /** A password the policy accepts scores 85 or 95 below 24 characters and 100 from there on. */
  lemma PolicyScore(p: bytes)
    requires MeetsPolicy(p)
    ensures Score(p) == Ok(if |p| >= 24 then 100 else if 2 * |Values(p)| >= |p| then 95 else 85)
  {
  }

  lemma ClassesGrow(p: bytes, b: byte)
    ensures ClassPoints(p) <= ClassPoints(p + [b])
    ensures !IsSpace(b) ==> (HasSpace(p + [b]) <==> HasSpace(p))
  {
    var q := p + [b];
    assert forall i :: 0 <= i < |p| ==> q[i] == p[i];
    assert HasLower(p) ==> HasLower(q);
    assert HasUpper(p) ==> HasUpper(q);
    assert HasDigit(p) ==> HasDigit(q);
    assert HasSymbol(p) ==> HasSymbol(q);
  }

  lemma NewValue(p: bytes, b: byte)
    requires b !in p
    ensures |Values(p + [b])| == |Values(p)| + 1
  {
    var q := p + [b];
    assert q[..|p|] == p && q[..|p| + 1] == q;
    ValuesExtend(q, |p|);
  }

  /** A further character that is new and no white space never lowers the score. */
  lemma ScoreRewardsDiversity(p: bytes, b: byte)
    requires p != [] && |p| < U16_MAX && b !in p && !IsSpace(b)
    ensures Score(p).Ok? && Score(p + [b]).Ok? && Score(p).value <= Score(p + [b]).value
  {
    ClassesGrow(p, b);
    NewValue(p, b);
  }
}
