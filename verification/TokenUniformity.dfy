/** token-gen/utils.go: with a fixed number of draws, all tokens of a length come from the same number of
    sequences of draws, so rejecting chunks leaves no bias between tokens. */
module TokenUniformity {
  import opened Arithmetic
  import opened Numbers
  import opened Wrappers
  import opened TokenGenerator

  // ---------------------------------------------------------------- finite sums

  function Sum(n: nat, g: nat -> nat): nat {
    if n == 0 then 0 else Sum(n - 1, g) + g(n - 1)
  }

  lemma {:induction false} SumSame(n: nat, f: nat -> nat, g: nat -> nat)
    requires forall i: nat :: i < n ==> f(i) == g(i)
    ensures Sum(n, f) == Sum(n, g)
  {
    if n > 0 { SumSame(n - 1, f, g); }
  }

  lemma {:induction false} SumAdd(n: nat, f: nat -> nat, g: nat -> nat, h: nat -> nat)
    requires forall i: nat :: i < n ==> h(i) == f(i) + g(i)
    ensures Sum(n, h) == Sum(n, f) + Sum(n, g)
  {
    if n > 0 { SumAdd(n - 1, f, g, h); }
  }

  lemma {:induction false} SumScaled(n: nat, k: nat, f: nat -> nat, h: nat -> nat)
    requires forall i: nat :: i < n ==> h(i) == k * f(i)
    ensures Sum(n, h) == k * Sum(n, f)
  {
    if n > 0 {
      SumScaled(n - 1, k, f, h);
      Distribute(k, Sum(n - 1, f), f(n - 1));
    }
  }

  lemma Distribute(k: nat, a: nat, b: nat)
    ensures k * (a + b) == k * a + k * b
  {
  }

  lemma {:induction false} SumConstant(n: nat, k: nat, f: nat -> nat)
    requires forall i: nat :: i < n ==> f(i) == k
    ensures Sum(n, f) == n * k
  {
    if n > 0 {
      SumConstant(n - 1, k, f);
      OneMore(n - 1, k);
    }
  }

  function Shifted(g: nat -> nat, n: nat): nat -> nat {
    i => g(n + i)
  }

  lemma {:induction false} SumTail(n: nat, k: nat, g: nat -> nat)
    ensures Sum(n + k, g) == Sum(n, g) + Sum(k, Shifted(g, n))
  {
    if k > 0 { SumTail(n, k - 1, g); }
  }

  function At(y: nat, b: nat, c: nat): nat {
    y * b + c
  }

  /** Every `b`-th value, from `c` on. */
  function Strided(g: nat -> nat, b: nat, c: nat): nat -> nat {
    y => g(At(y, b, c))
  }

  function Columns(a: nat, b: nat, g: nat -> nat): nat -> nat {
    c => Sum(a, Strided(g, b, c))
  }

  lemma ColumnGrows(a: nat, b: nat, g: nat -> nat, c: nat)
    ensures Columns(a + 1, b, g)(c) == Columns(a, b, g)(c) + Shifted(g, a * b)(c)
  {
    var n := At(a, b, c);
    assert n == a * b + c;
    assert Strided(g, b, c)(a) == g(n) == Shifted(g, a * b)(c);
  }

  /** A sum over two-digit numbers, the low digit first. */
  lemma {:induction false} SumByDigits(a: nat, b: nat, g: nat -> nat)
    ensures Sum(a * b, g) == Sum(b, Columns(a, b, g))
  {
    hide Columns, Shifted;
    if a == 0 {
      NoRows(b, g);
      SumConstant(b, 0, Columns(0, b, g));
    } else {
      SumByDigits(a - 1, b, g);
      OneMore(a - 1, b);
      SumTail((a - 1) * b, b, g);
      forall c: nat | c < b ensures Columns(a, b, g)(c) == Columns(a - 1, b, g)(c) + Shifted(g, (a - 1) * b)(c) {
        ColumnGrows(a - 1, b, g, c);
      }
      SumAdd(b, Columns(a - 1, b, g), Shifted(g, (a - 1) * b), Columns(a, b, g));
    }
  }

  lemma NoRows(b: nat, g: nat -> nat)
    ensures forall c: nat :: Columns(0, b, g)(c) == 0
    ensures Sum(0 * b, g) == 0
  {
  }

  /** One value at `p`, nothing at the other places below `l`, and `y` from there on. */
  lemma {:induction false} SumOfChoices(n: nat, l: nat, p: nat, x: nat, y: nat, f: nat -> nat)
    requires p < l
    requires forall i: nat :: i < n ==> f(i) == if i == p then x else if i < l then 0 else y
    ensures Sum(n, f) == (if p < n then x else 0) + (if l < n then (n - l) * y else 0)
  {
    if n > 0 {
      SumOfChoices(n - 1, l, p, x, y, f);
      if n > l { OneMore(n - 1 - l, y); }
    }
  }

  // ---------------------------------------------------------------- counting sequences of draws

  datatype Setting = Setting(alphabet: string, bits: nat, max: nat, width: nat)

  /** How many sequences of `count` further draws below 2^width, after the draws `sofar`, yield the token. */
  function Ways(g: Setting, token: string, count: nat, sofar: seq<nat>): nat
    decreases count, 1
  {
    if count == 0 then if TokenOf(g.alphabet, g.bits, g.max, |token|, sofar) == Some(token) then 1 else 0
    else Sum(Pow2(g.width), NextWays(g, token, count, sofar))
  }

  function NextWays(g: Setting, token: string, count: nat, sofar: seq<nat>): nat -> nat
    requires count > 0
    decreases count, 0
  {
    d => Ways(g, token, count - 1, sofar + [d])
  }

  ghost predicate Fits(g: Setting) {
    && |g.alphabet| <= Pow2(g.bits) && g.bits * g.max <= g.width
    && forall i, j :: 0 <= i < j < |g.alphabet| ==> g.alphabet[i] != g.alphabet[j]
  }

  ghost predicate Spelt(alphabet: string, text: string) {
    forall i :: 0 <= i < |text| ==> text[i] in alphabet
  }

  /** How many draws are cut into one given vector of chunks. */
  function Copies(g: Setting): nat
    requires g.bits * g.max <= g.width
  {
    Pow2(g.width - g.bits * g.max)
  }

  /** The number of sequences of `count` draws that bring the `missing` letters of a token. */
  function Completions(g: Setting, count: nat, missing: nat): nat
    requires |g.alphabet| <= Pow2(g.bits) && g.bits * g.max <= g.width
    decreases count, 0
  {
    if count == 0 then if missing == 0 then 1 else 0
    else Copies(g) * WithinDraw(g, count - 1, g.max, missing)
  }

  /** The same with `chunks` chunks left in the draw at hand and `count` draws after it. */
  function WithinDraw(g: Setting, count: nat, chunks: nat, missing: nat): nat
    requires |g.alphabet| <= Pow2(g.bits) && g.bits * g.max <= g.width
    decreases count, chunks + 1
  {
    if chunks == 0 then Completions(g, count, missing)
    else if missing == 0 then Pow2(g.bits) * WithinDraw(g, count, chunks - 1, 0)
    else
      WithinDraw(g, count, chunks - 1, missing - 1)
      + (Pow2(g.bits) - |g.alphabet|) * WithinDraw(g, count, chunks - 1, missing)
  }

  /** How many letters of `wanted` are missing after `found`; None when `found` went astray. */
  function Missing(found: string, wanted: string): Option<nat> {
    if wanted <= found then Some(0) else if found <= wanted then Some(|wanted| - |found|) else None
  }

  ghost function Expected(g: Setting, wanted: string, count: nat, chunks: nat, found: string): nat
    requires Fits(g)
  {
    var missing := Missing(found, wanted);
    if missing.None? then 0 else WithinDraw(g, count, chunks, missing.value)
  }

  function Letter(alphabet: string, c: nat): string {
    if c < |alphabet| then [alphabet[c]] else []
  }

  // ---------------------------------------------------------------- the chunks of a draw, one at a time

  /** `f` says what becomes of the token for each value of the next chunk. */
  ghost predicate TellsNext(g: Setting, wanted: string, count: nat, chunks: nat, found: string, f: nat -> nat)
    requires Fits(g)
  {
    forall c: nat :: c < Pow2(g.bits) ==>
      f(c) == Expected(g, wanted, count, chunks, found + Letter(g.alphabet, c))
  }

  /** Over all values of the next chunk. */
  lemma NextChunkSum(g: Setting, wanted: string, count: nat, chunks: nat, found: string, f: nat -> nat)
    requires Fits(g) && Spelt(g.alphabet, wanted) && chunks > 0
    requires TellsNext(g, wanted, count, chunks - 1, found, f)
    ensures Sum(Pow2(g.bits), f) == Expected(g, wanted, count, chunks, found)
  {
    hide Pow2, Sum, Fits, Spelt, TellsNext;
    var missing := Missing(found, wanted);
    if missing.None? || missing.value == 0 {
      SettledSum(g, wanted, count, chunks, found, f);
    } else {
      MissingSum(g, wanted, count, chunks, found, f);
    }
  }

  /** A token that is complete, or cannot become so, stays that way. */
  lemma SettledSum(g: Setting, wanted: string, count: nat, chunks: nat, found: string, f: nat -> nat)
    requires Fits(g) && chunks > 0 && TellsNext(g, wanted, count, chunks - 1, found, f)
    requires Missing(found, wanted) in {None, Some(0)}
    ensures Sum(Pow2(g.bits), f) == Expected(g, wanted, count, chunks, found)
  {
    hide Pow2, Sum;
    var each := if Missing(found, wanted).None? then 0 else WithinDraw(g, count, chunks - 1, 0);
    forall c: nat | c < Pow2(g.bits) ensures f(c) == each {
      if Missing(found, wanted).None? {
        StaysAstray(g.alphabet, wanted, found, c);
      } else {
        assert wanted <= found + Letter(g.alphabet, c);
      }
    }
    SumConstant(Pow2(g.bits), each, f);
  }

  lemma MissingSum(g: Setting, wanted: string, count: nat, chunks: nat, found: string, f: nat -> nat)
    requires Fits(g) && Spelt(g.alphabet, wanted) && chunks > 0
    requires TellsNext(g, wanted, count, chunks - 1, found, f)
    requires Missing(found, wanted).Some? && Missing(found, wanted).value > 0
    ensures Sum(Pow2(g.bits), f) == Expected(g, wanted, count, chunks, found)
  {
    hide Pow2, Sum;
    var missing := Missing(found, wanted).value;
    var p: nat :| p < |g.alphabet| && g.alphabet[p] == wanted[|found|];
    var x, y := WithinDraw(g, count, chunks - 1, missing - 1), WithinDraw(g, count, chunks - 1, missing);
    forall c: nat | c < Pow2(g.bits) ensures f(c) == if c == p then x else if c < |g.alphabet| then 0 else y {
      hide WithinDraw, Expected;
      AfterChoice(g, wanted, count, chunks - 1, found, p, c);
    }
    SumOfChoices(Pow2(g.bits), |g.alphabet|, p, x, y, f);
  }

  /** The wanted letter is at place `p` only; other letters lead astray, rejected chunks change nothing. */
  lemma AfterChoice(g: Setting, wanted: string, count: nat, chunks: nat, found: string, p: nat, c: nat)
    requires Fits(g) && Missing(found, wanted).Some? && Missing(found, wanted).value > 0
    requires p < |g.alphabet| && g.alphabet[p] == wanted[|found|]
    ensures var missing := Missing(found, wanted).value;
      Expected(g, wanted, count, chunks, found + Letter(g.alphabet, c)) ==
        if c == p then WithinDraw(g, count, chunks, missing - 1)
        else if c < |g.alphabet| then 0
        else WithinDraw(g, count, chunks, missing)
  {
    hide WithinDraw, Letter, Pow2;
    NextLetterMissing(g.alphabet, wanted, found, c);
  }

  lemma StaysAstray(alphabet: string, wanted: string, found: string, c: nat)
    requires Missing(found, wanted).None?
    ensures Missing(found + Letter(alphabet, c), wanted).None?
  {
    var more := found + Letter(alphabet, c);
    assert more[..|found|] == found;
    assert |wanted| <= |found| ==> more[..|wanted|] == found[..|wanted|];
  }

  lemma NextLetterMissing(alphabet: string, wanted: string, found: string, c: nat)
    requires Missing(found, wanted).Some? && Missing(found, wanted).value > 0
    ensures Missing(found + Letter(alphabet, c), wanted) ==
      if c >= |alphabet| then Missing(found, wanted)
      else if alphabet[c] == wanted[|found|] then Some(Missing(found, wanted).value - 1)
      else None
  {
    if c >= |alphabet| {
      assert found + Letter(alphabet, c) == found;
    } else {
      var more := found + [alphabet[c]];
      assert more[|found|] == alphabet[c];
      if alphabet[c] == wanted[|found|] { assert wanted[..|found| + 1] == more; }
    }
  }

  lemma ChunkShift(bits: nat, y: nat, c: nat, j: nat)
    requires c < Pow2(bits)
    ensures Chunk(bits, At(y, Pow2(bits), c), 0) == c
    ensures Chunk(bits, At(y, Pow2(bits), c), j + 1) == Chunk(bits, y, j)
  {
    hide Pow2;
    var base, d := Pow2(bits), At(y, Pow2(bits), c);
    DivisionIs(d, y, base, c);
    NoShift(bits, d);
    DivideTwice(d, base, Pow2(bits * j));
    NextScale(bits, j);
    assert base * Pow2(bits * j) == Pow2(bits * j) * base;
  }

  /** Cutting a draw from the low end. */
  lemma {:induction false} FirstChunk(bits: nat, y: nat, c: nat, chunks: nat)
    requires c < Pow2(bits) && chunks > 0
    ensures ChunksOfDraw(bits, At(y, Pow2(bits), c), chunks) == [c] + ChunksOfDraw(bits, y, chunks - 1)
  {
    hide Pow2, Chunk, At;
    if chunks == 1 {
      ChunkShift(bits, y, c, 0);
    } else {
      FirstChunk(bits, y, c, chunks - 1);
      ChunkShift(bits, y, c, chunks - 2);
    }
  }

  lemma LettersAfterFirst(g: Setting, y: nat, c: nat, chunks: nat, found: string)
    requires c < Pow2(g.bits) && chunks > 0
    ensures found + Letters(g.alphabet, ChunksOfDraw(g.bits, At(y, Pow2(g.bits), c), chunks)) ==
      found + Letter(g.alphabet, c) + Letters(g.alphabet, ChunksOfDraw(g.bits, y, chunks - 1))
  {
    hide Pow2, ChunksOfDraw, Letters;
    FirstChunk(g.bits, y, c, chunks);
    LettersSplit(g.alphabet, [c], ChunksOfDraw(g.bits, y, chunks - 1));
    OneLetter(g.alphabet, c);
  }

  lemma NoLetters(alphabet: string, bits: nat, found: string)
    ensures forall d: nat :: found + Letters(alphabet, ChunksOfDraw(bits, d, 0)) == found
  {
  }

  ghost function AfterChunk(g: Setting, wanted: string, count: nat, chunks: nat, found: string): nat -> nat
    requires Fits(g)
  {
    c => Expected(g, wanted, count, chunks, found + Letter(g.alphabet, c))
  }

  /** `f` says what becomes of the token for each draw of the width. */
  ghost predicate Tells(
    g: Setting, wanted: string, count: nat, width: nat, chunks: nat, found: string, f: nat -> nat)
    requires Fits(g)
  {
    forall d: nat :: d < Pow2(width) ==>
      f(d) == Expected(g, wanted, count, 0, found + Letters(g.alphabet, ChunksOfDraw(g.bits, d, chunks)))
  }

  lemma ColumnTells(
      g: Setting, wanted: string, count: nat, rest: nat, chunks: nat, found: string, f: nat -> nat, c: nat)
    requires Fits(g) && chunks > 0 && c < Pow2(g.bits) && Tells(g, wanted, count, rest + g.bits, chunks, found, f)
    ensures Tells(g, wanted, count, rest, chunks - 1, found + Letter(g.alphabet, c), Strided(f, Pow2(g.bits), c))
  {
    hide Pow2, Expected, Fits, Letters, ChunksOfDraw;
    var column := Strided(f, Pow2(g.bits), c);
    Pow2Sum(rest, g.bits);
    forall y: nat | y < Pow2(rest)
      ensures column(y) == Expected(g, wanted, count, 0,
        found + Letter(g.alphabet, c) + Letters(g.alphabet, ChunksOfDraw(g.bits, y, chunks - 1)))
    {
      MultiplesApart(y, Pow2(rest), Pow2(g.bits));
      LettersAfterFirst(g, y, c, chunks, found);
    }
  }

  lemma {:induction false} ColumnSums(
      g: Setting, wanted: string, count: nat, rest: nat, chunks: nat, found: string, f: nat -> nat)
    requires Fits(g) && Spelt(g.alphabet, wanted) && chunks > 0 && g.bits * (chunks - 1) <= rest
    requires Tells(g, wanted, count, rest + g.bits, chunks, found, f)
    ensures Sum(Pow2(g.bits), Columns(Pow2(rest), Pow2(g.bits), f)) ==
      Pow2(rest - g.bits * (chunks - 1)) * Expected(g, wanted, count, chunks, found)
    decreases chunks - 1, 1
  {
    hide Pow2, Sum, Expected, Fits, Spelt, Tells;
    var base, copies := Pow2(g.bits), Pow2(rest - g.bits * (chunks - 1));
    var each := AfterChunk(g, wanted, count, chunks - 1, found);
    forall c: nat | c < base ensures Columns(Pow2(rest), base, f)(c) == copies * each(c) {
      ColumnTells(g, wanted, count, rest, chunks, found, f, c);
      DrawSum(g, wanted, count, rest, chunks - 1, found + Letter(g.alphabet, c), Strided(f, base, c));
    }
    SumScaled(base, copies, each, Columns(Pow2(rest), base, f));
    NextChunkSum(g, wanted, count, chunks, found, each);
  }

  /** Over all draws of a width: what becomes of the token once the first `chunks` chunks are read. */
  lemma {:induction false} DrawSum(
      g: Setting, wanted: string, count: nat, width: nat, chunks: nat, found: string, f: nat -> nat)
    requires Fits(g) && Spelt(g.alphabet, wanted) && g.bits * chunks <= width
    requires Tells(g, wanted, count, width, chunks, found, f)
    ensures Sum(Pow2(width), f) == Pow2(width - g.bits * chunks) * Expected(g, wanted, count, chunks, found)
    decreases chunks, 0
  {
    hide Pow2, Sum, Expected, Fits, Letters, Spelt;
    if chunks == 0 {
      NoLetters(g.alphabet, g.bits, found);
      SumConstant(Pow2(width), Expected(g, wanted, count, 0, found), f);
    } else {
      var rest := width - g.bits;
      assert g.bits * chunks == g.bits + g.bits * (chunks - 1);
      Pow2Sum(rest, g.bits);
      SumByDigits(Pow2(rest), Pow2(g.bits), f);
      ColumnSums(g, wanted, count, rest, chunks, found, f);
    }
  }

  // ---------------------------------------------------------------- whole sequences of draws

  lemma {:induction false} ReversedTwice(s: string)
    ensures |Reversed(s)| == |s| && Reversed(Reversed(s)) == s
  {
    if s != [] {
      ReversedTwice(s[1..]);
      ReversedMore(Reversed(s[1..]), s[0]);
      assert s == [s[0]] + s[1..];
    }
  }

  /** A token is found exactly when its letters, from the back, come first. */
  lemma FoundExactly(g: Setting, token: string, draws: seq<nat>)
    ensures TokenOf(g.alphabet, g.bits, g.max, |token|, draws) == Some(token) <==>
      Reversed(token) <= Letters(g.alphabet, Chunks(g.bits, g.max, draws))
  {
    hide Letters, Chunks, Reversed;
    var letters := Letters(g.alphabet, Chunks(g.bits, g.max, draws));
    ReversedTwice(token);
    if |letters| >= |token| {
      ReversedTwice(letters[..|token|]);
      assert Reversed(token) <= letters <==> letters[..|token|] == Reversed(token);
    }
  }

  lemma LettersOfMore(g: Setting, sofar: seq<nat>, d: nat)
    ensures Letters(g.alphabet, Chunks(g.bits, g.max, sofar + [d])) ==
      Letters(g.alphabet, Chunks(g.bits, g.max, sofar)) + Letters(g.alphabet, ChunksOfDraw(g.bits, d, g.max))
  {
    assert (sofar + [d])[..|sofar|] == sofar;
    LettersSplit(g.alphabet, Chunks(g.bits, g.max, sofar), ChunksOfDraw(g.bits, d, g.max));
  }

  /** The number of ways depends on nothing but how many letters are missing. */
  lemma {:induction false} WaysAreCompletions(g: Setting, token: string, count: nat, sofar: seq<nat>)
    requires Fits(g) && Spelt(g.alphabet, Reversed(token))
    ensures var missing := Missing(Letters(g.alphabet, Chunks(g.bits, g.max, sofar)), Reversed(token));
      Ways(g, token, count, sofar) == if missing.None? then 0 else Completions(g, count, missing.value)
  {
    hide Pow2, Sum, Letters, Chunks, Reversed, TokenOf, Fits, Spelt;
    var found, wanted := Letters(g.alphabet, Chunks(g.bits, g.max, sofar)), Reversed(token);
    if count == 0 {
      FoundExactly(g, token, sofar);
    } else {
      var next := NextWays(g, token, count, sofar);
      forall d: nat
        ensures next(d) ==
          Expected(g, wanted, count - 1, 0, found + Letters(g.alphabet, ChunksOfDraw(g.bits, d, g.max)))
      {
        WaysAreCompletions(g, token, count - 1, sofar + [d]);
        LettersOfMore(g, sofar, d);
      }
      assert g.bits * g.max <= g.width by { WidthSuffices(g); }
      DrawSum(g, wanted, count - 1, g.width, g.max, found, next);
    }
  }

  lemma WidthSuffices(g: Setting)
    requires Fits(g)
    ensures g.bits * g.max <= g.width && |g.alphabet| <= Pow2(g.bits)
  {
  }

  /** Every token of a length comes from the same number of sequences of draws. */
  lemma TokensAreUniform(g: Setting, draws: nat, token: string, other: string)
    requires Fits(g) && Spelt(g.alphabet, token) && Spelt(g.alphabet, other) && |token| == |other|
    ensures Ways(g, token, draws, []) == Ways(g, other, draws, []) == Completions(g, draws, |token|)
  {
    hide Ways, Completions, Letters, Pow2;
    NoLettersYet(g, token);
    NoLettersYet(g, other);
    WaysAreCompletions(g, token, draws, []);
    WaysAreCompletions(g, other, draws, []);
  }

  lemma NoLettersYet(g: Setting, token: string)
    requires Spelt(g.alphabet, token)
    ensures Spelt(g.alphabet, Reversed(token))
    ensures Missing(Letters(g.alphabet, Chunks(g.bits, g.max, [])), Reversed(token)) == Some(|token|)
  {
    ReversedTwice(token);
    forall i | 0 <= i < |token| ensures Reversed(token)[i] in g.alphabet { ReversedAt(token, i); }
  }

  lemma {:induction false} ReversedAt(s: string, i: nat)
    requires i < |s|
    ensures |Reversed(s)| == |s| && Reversed(s)[i] in s
  {
    ReversedTwice(s);
    if i < |s| - 1 {
      ReversedTwice(s[1..]);
      ReversedAt(s[1..], i);
    }
  }

  /** In particular the tokens of a generator whose letters are distinct, over its 63-bit draws. */
  lemma GeneratorIsUniform(gen: Generator, draws: nat, token: string, other: string)
    requires gen.Valid() && |gen.alphabet| <= MAX_INT64
    requires forall i, j :: 0 <= i < j < |gen.alphabet| ==> gen.alphabet[i] != gen.alphabet[j]
    requires Spelt(gen.alphabet, token) && Spelt(gen.alphabet, other) && |token| == |other|
    ensures var g := Setting(gen.alphabet, gen.letterIdxBits, gen.letterIdxMax, 63);
      Ways(g, token, draws, []) == Ways(g, other, draws, [])
  {
    hide Ways, Completions, Pow2;
    if gen.alphabet != [] { BinaryDigitsBound(|gen.alphabet|); }
    BitsFitDraw(|gen.alphabet|);
    TokensAreUniform(Setting(gen.alphabet, gen.letterIdxBits, gen.letterIdxMax, 63), draws, token, other);
  }
}
