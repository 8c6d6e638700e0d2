/** token-gen/utils.go: tokens by rejection sampling on fixed-width chunks of 63-bit random draws. */
module TokenGenerator {
  import opened Arithmetic
  import opened Numbers
  import opened Wrappers

  const DRAW_BITS := 63

  /** len(strconv.FormatInt(n, 2)) */
  function BinaryDigits(n: nat): nat {
    if n < 2 then 1 else 1 + BinaryDigits(n / 2)
  }

  lemma {:induction false} BinaryDigitsBound(n: nat)
    requires n >= 1
    ensures BinaryDigits(n) >= 1 && Pow2(BinaryDigits(n) - 1) <= n < Pow2(BinaryDigits(n))
  {
    if n >= 2 { BinaryDigitsBound(n / 2); }
  }

  lemma {:induction false} Pow2Monotone(a: nat, b: nat)
    requires a <= b
    ensures Pow2(a) <= Pow2(b)
  {
    if a < b { Pow2Monotone(a, b - 1); }
  }

  /** The `j`-th chunk of a draw, counted from the low bits. */
  function Chunk(bits: nat, draw: nat, j: nat): nat {
    (draw / Pow2(bits * j)) % Pow2(bits)
  }

  function ChunksOfDraw(bits: nat, draw: nat, count: nat): seq<nat> {
    if count == 0 then [] else ChunksOfDraw(bits, draw, count - 1) + [Chunk(bits, draw, count - 1)]
  }

  function Chunks(bits: nat, max: nat, draws: seq<nat>): seq<nat> {
    if draws == [] then [] else Chunks(bits, max, draws[..|draws| - 1]) + ChunksOfDraw(bits, draws[|draws| - 1], max)
  }

  /** The letters of the chunks that are positions in the alphabet; the others are rejected. */
  function Letters(alphabet: string, chunks: seq<nat>): string {
    if chunks == [] then []
    else
      var c := chunks[|chunks| - 1];
      Letters(alphabet, chunks[..|chunks| - 1]) + (if c < |alphabet| then [alphabet[c]] else [])
  }

  function Reversed(s: string): string {
    if s == [] then [] else Reversed(s[1..]) + [s[0]]
  }

  /** The token that a sequence of draws yields: the first accepted letters, filled in from the back. */
  function TokenOf(alphabet: string, bits: nat, max: nat, tokenLength: nat, draws: seq<nat>): Option<string> {
    var letters := Letters(alphabet, Chunks(bits, max, draws));
    if |letters| < tokenLength then None else Some(Reversed(letters[..tokenLength]))
  }

  lemma {:induction false} LettersSplit(alphabet: string, a: seq<nat>, b: seq<nat>)
    ensures Letters(alphabet, a + b) == Letters(alphabet, a) + Letters(alphabet, b)
  {
    if b == [] {
      assert a + b == a;
    } else {
      LettersSplit(alphabet, a, b[..|b| - 1]);
      assert (a + b)[..|a + b| - 1] == a + b[..|b| - 1];
    }
  }

  lemma {:induction false} ReversedMore(s: string, c: char)
    ensures Reversed(s + [c]) == [c] + Reversed(s)
  {
    if s != [] {
      assert (s + [c])[1..] == s[1..] + [c];
      ReversedMore(s[1..], c);
    }
  }

  /** The chunks of the first `next - 1` draws and the first `used` chunks of the following one. */
  function FirstChunks(bits: nat, max: nat, draws: seq<nat>, next: nat, used: nat): seq<nat>
    requires 1 <= next <= |draws|
  {
    Chunks(bits, max, draws[..next - 1]) + ChunksOfDraw(bits, draws[next - 1], used)
  }

  lemma NoChunks(bits: nat, max: nat, draws: seq<nat>, alphabet: string)
    requires draws != []
    ensures FirstChunks(bits, max, draws, 1, 0) == [] && Letters(alphabet, []) == Reversed([]) == []
  {
  }

  lemma NextDraw(bits: nat, max: nat, draws: seq<nat>, next: nat)
    requires 1 <= next <= |draws|
    ensures FirstChunks(bits, max, draws, next, max) == Chunks(bits, max, draws[..next])
    ensures next < |draws| ==> FirstChunks(bits, max, draws, next + 1, 0) == Chunks(bits, max, draws[..next])
    ensures draws[..|draws|] == draws
  {
    assert draws[..next][..next - 1] == draws[..next - 1];
  }

  /** Masking gives the next chunk and shifting moves on to the one after it. */
  lemma NextChunk(bits: nat, max: nat, draws: seq<nat>, next: nat, used: nat, cache: nat)
    requires 1 <= next <= |draws| && cache == draws[next - 1] / Pow2(bits * used)
    ensures FirstChunks(bits, max, draws, next, used + 1) ==
      FirstChunks(bits, max, draws, next, used) + [cache % Pow2(bits)]
    ensures cache / Pow2(bits) == draws[next - 1] / Pow2(bits * (used + 1))
  {
    DivideTwice(draws[next - 1], Pow2(bits * used), Pow2(bits));
    Pow2Sum(bits * used, bits);
    assert bits * used + bits == bits * (used + 1);
  }

  lemma NoShift(bits: nat, cache: nat)
    ensures cache / Pow2(bits * 0) == cache
  {
    assert Pow2(0) == 1;
  }

  lemma OneLetter(alphabet: string, c: nat)
    ensures Letters(alphabet, [c]) == if c < |alphabet| then [alphabet[c]] else []
  {
    assert [c][..0] == [];
  }

  /** One round of the loop: the next chunk is masked off and puts its letter, if it has one, in front. */
  lemma NextLetter(alphabet: string, bits: nat, max: nat, draws: seq<nat>, next: nat, used: nat, cache: nat)
    requires 1 <= next <= |draws| && cache == draws[next - 1] / Pow2(bits * used)
    ensures var before := Letters(alphabet, FirstChunks(bits, max, draws, next, used));
      var after := Letters(alphabet, FirstChunks(bits, max, draws, next, used + 1));
      var idx := cache % Pow2(bits);
      if idx < |alphabet| then |after| == |before| + 1 && Reversed(after) == [alphabet[idx]] + Reversed(before)
      else after == before
    ensures cache / Pow2(bits) == draws[next - 1] / Pow2(bits * (used + 1))
  {
    hide FirstChunks, Letters, Reversed, Pow2;
    var chunks, idx := FirstChunks(bits, max, draws, next, used), cache % Pow2(bits);
    NextChunk(bits, max, draws, next, used, cache);
    LettersSplit(alphabet, chunks, [idx]);
    OneLetter(alphabet, idx);
    if idx < |alphabet| { ReversedMore(Letters(alphabet, chunks), alphabet[idx]); }
    else { assert Letters(alphabet, chunks) + [] == Letters(alphabet, chunks); }
  }

  lemma {:induction false} DrawPrefix(bits: nat, draw: nat, used: nat, max: nat)
    requires used <= max
    ensures ChunksOfDraw(bits, draw, used) <= ChunksOfDraw(bits, draw, max)
  {
    if used < max { DrawPrefix(bits, draw, used, max - 1); }
  }

  lemma {:induction false} ChunksPrefix(bits: nat, max: nat, draws: seq<nat>, count: nat)
    requires count <= |draws|
    ensures Chunks(bits, max, draws[..count]) <= Chunks(bits, max, draws)
  {
    if count == |draws| {
      assert draws[..count] == draws;
    } else {
      ChunksPrefix(bits, max, draws[..|draws| - 1], count);
      assert draws[..|draws| - 1][..count] == draws[..count];
    }
  }

  lemma FirstChunksArePrefix(bits: nat, max: nat, draws: seq<nat>, next: nat, used: nat)
    requires 1 <= next <= |draws| && used <= max
    ensures FirstChunks(bits, max, draws, next, used) <= Chunks(bits, max, draws)
  {
    DrawPrefix(bits, draws[next - 1], used, max);
    NextDraw(bits, max, draws, next);
    ChunksPrefix(bits, max, draws, next);
  }

  lemma LettersOfPrefix(alphabet: string, a: seq<nat>, b: seq<nat>)
    requires a <= b
    ensures Letters(alphabet, a) <= Letters(alphabet, b)
  {
    LettersSplit(alphabet, a, b[|a|..]);
    assert b == a + b[|a|..];
  }

  /** Once enough letters were found, they are the first letters of all the draws. */
  lemma EnoughLetters(alphabet: string, bits: nat, max: nat, draws: seq<nat>, next: nat, used: nat, enough: nat)
    requires 1 <= next <= |draws| && used <= max
    requires |Letters(alphabet, FirstChunks(bits, max, draws, next, used))| == enough
    ensures |Letters(alphabet, Chunks(bits, max, draws))| >= enough
    ensures Letters(alphabet, Chunks(bits, max, draws))[..enough] ==
      Letters(alphabet, FirstChunks(bits, max, draws, next, used))
  {
    FirstChunksArePrefix(bits, max, draws, next, used);
    LettersOfPrefix(alphabet, FirstChunks(bits, max, draws, next, used), Chunks(bits, max, draws));
  }

  /** More draws never change a token. */
  lemma MoreDrawsSameToken(alphabet: string, bits: nat, max: nat, draws: seq<nat>, more: seq<nat>, tokenLength: nat)
    requires |Letters(alphabet, Chunks(bits, max, draws))| >= tokenLength
    ensures |Letters(alphabet, Chunks(bits, max, draws + more))| >= tokenLength
    ensures Letters(alphabet, Chunks(bits, max, draws))[..tokenLength] ==
      Letters(alphabet, Chunks(bits, max, draws + more))[..tokenLength]
  {
    ChunksPrefix(bits, max, draws + more, |draws|);
    assert (draws + more)[..|draws|] == draws;
    LettersOfPrefix(alphabet, Chunks(bits, max, draws), Chunks(bits, max, draws + more));
  }

  /** An int64 length has at most 63 binary digits, so a draw holds at least one chunk. */
  lemma BitsFitDraw(n: nat)
    requires n <= MAX_INT64
    ensures 1 <= BinaryDigits(n) <= DRAW_BITS && DRAW_BITS / BinaryDigits(n) >= 1
    ensures BinaryDigits(n) * (DRAW_BITS / BinaryDigits(n)) <= 63 < BinaryDigits(n) * (DRAW_BITS / BinaryDigits(n) + 1)
  {
    hide Pow2;
    var bits := BinaryDigits(n);
    if n >= 1 {
      BinaryDigitsBound(n);
      if bits > DRAW_BITS {
        Pow2Monotone(DRAW_BITS, bits - 1);
        PowersOfTwo();
      }
    }
    ChunksPerDraw(bits);
  }

  lemma ChunksPerDraw(bits: nat)
    requires 1 <= bits <= DRAW_BITS
    ensures DRAW_BITS / bits >= 1 && bits * (DRAW_BITS / bits) <= DRAW_BITS < bits * (DRAW_BITS / bits + 1)
  {
    var max := DRAW_BITS / bits;
    assert bits * max + DRAW_BITS % bits == DRAW_BITS;
  }

  // ---------------------------------------------------------------- every vector of chunks is equally likely

  /** How many of the draws below `n` have value `v` in the chunk at `scale` == 2^(bits * j). */
  function Hits(n: nat, scale: nat, base: nat, v: nat): nat
    requires scale > 0 && base > 0
  {
    if n == 0 then 0 else Hits(n - 1, scale, base, v) + if (n - 1) / scale % base == v then 1 else 0
  }

  lemma {:induction false} HitsInBlock(q: nat, scale: nat, base: nat, v: nat, r: nat)
    requires 0 < scale && 0 < base && r <= scale
    ensures Hits(q * scale + r, scale, base, v) ==
      Hits(q * scale, scale, base, v) + if q % base == v then r else 0
  {
    if r > 0 {
      HitsInBlock(q, scale, base, v, r - 1);
      DivisionIs(q * scale + (r - 1), q, scale, r - 1);
    }
  }

  function BlockHits(q: nat, base: nat, v: nat): nat
    requires base > 0
  {
    if q == 0 then 0 else BlockHits(q - 1, base, v) + if (q - 1) % base == v then 1 else 0
  }

  lemma {:induction false} HitsOfBlocks(q: nat, scale: nat, base: nat, v: nat)
    requires 0 < scale && 0 < base
    ensures Hits(q * scale, scale, base, v) == BlockHits(q, base, v) * scale
  {
    hide Hits;
    if q == 0 {
      NoHits(scale, base, v);
    } else {
      HitsOfBlocks(q - 1, scale, base, v);
      HitsInBlock(q - 1, scale, base, v, scale);
      Arithmetic.OneMore(q - 1, scale);
      assert BlockHits(q, base, v) == BlockHits(q - 1, base, v) + if (q - 1) % base == v then 1 else 0;
      Arithmetic.OneMore(BlockHits(q - 1, base, v), scale);
    }
  }

  lemma NoHits(scale: nat, base: nat, v: nat)
    requires 0 < scale && 0 < base
    ensures Hits(0 * scale, scale, base, v) == BlockHits(0, base, v) * scale == 0
  {
  }

  lemma {:induction false} BlockHitsInRound(k: nat, base: nat, v: nat, r: nat)
    requires v < base && r <= base
    ensures BlockHits(k * base + r, base, v) == BlockHits(k * base, base, v) + if r > v then 1 else 0
  {
    if r > 0 {
      BlockHitsInRound(k, base, v, r - 1);
      DivisionIs(k * base + (r - 1), k, base, r - 1);
    }
  }

  lemma {:induction false} BlockHitsOfRounds(k: nat, base: nat, v: nat)
    requires v < base
    ensures BlockHits(k * base, base, v) == k
  {
    if k > 0 {
      BlockHitsOfRounds(k - 1, base, v);
      BlockHitsInRound(k - 1, base, v, base);
      assert (k - 1) * base + base == k * base;
    }
  }

  /** Among the 2^63 draws, or those of any other width, each chunk takes each of its values equally often. */
  lemma ChunksAreUniform(width: nat, bits: nat, j: nat, v: nat)
    requires bits * (j + 1) <= width && v < Pow2(bits)
    ensures bits <= width && Hits(Pow2(width), Pow2(bits * j), Pow2(bits), v) == Pow2(width - bits)
  {
    hide Pow2, Hits, BlockHits;
    assert bits * (j + 1) == bits * j + bits;
    var low := bits * j;
    var high := width - low - bits;
    Pow2Sum(high, bits);
    Pow2Sum(high + bits, low);
    Pow2Sum(high, low);
    HitsOfBlocks(Pow2(high) * Pow2(bits), Pow2(low), Pow2(bits), v);
    BlockHitsOfRounds(Pow2(high), Pow2(bits), v);
  }

  /** The low bits of a draw whose first chunks are `vs`. */
  function Packed(bits: nat, vs: seq<nat>): nat {
    if vs == [] then 0
    else Packed(bits, vs[..|vs| - 1]) + vs[|vs| - 1] * Pow2(bits * (|vs| - 1))
  }

  /** How many of the draws below `n` are cut into the chunks `vs`. */
  function VectorHits(n: nat, bits: nat, vs: seq<nat>): nat {
    if n == 0 then 0
    else VectorHits(n - 1, bits, vs) + if ChunksOfDraw(bits, n - 1, |vs|) == vs then 1 else 0
  }

  ghost predicate AreChunks(bits: nat, vs: seq<nat>) {
    forall i :: 0 <= i < |vs| ==> vs[i] < Pow2(bits)
  }

  lemma {:induction false} PackedFits(bits: nat, vs: seq<nat>)
    requires AreChunks(bits, vs)
    ensures Packed(bits, vs) < Pow2(bits * |vs|)
  {
    if vs != [] {
      hide Pow2;
      var n, last := |vs| - 1, vs[|vs| - 1];
      var scale, base := Pow2(bits * n), Pow2(bits);
      PackedFits(bits, vs[..n]);
      NextScale(bits, n);
      MultiplesApart(last, base, scale);
      assert base * scale == scale * base;
      assert Packed(bits, vs) == Packed(bits, vs[..n]) + last * scale;
    } else {
      NoExponent();
    }
  }

  lemma NextScale(bits: nat, n: nat)
    ensures Pow2(bits * (n + 1)) == Pow2(bits * n) * Pow2(bits)
  {
    Pow2Sum(bits * n, bits);
    assert bits * (n + 1) == bits * n + bits;
  }

  lemma OneMoreChunk(bits: nat, draw: nat, front: seq<nat>, last: nat)
    ensures ChunksOfDraw(bits, draw, |front| + 1) == front + [last] <==>
      ChunksOfDraw(bits, draw, |front|) == front && Chunk(bits, draw, |front|) == last
    ensures Packed(bits, front + [last]) == Packed(bits, front) + last * Pow2(bits * |front|)
    ensures ChunksOfDraw(bits, draw, 0) == [] && Packed(bits, []) == 0
  {
    hide Pow2, Chunk;
    var chunks := ChunksOfDraw(bits, draw, |front|);
    ChunkCount(bits, draw, |front|);
    assert (front + [last])[..|front|] == front;
    assert (chunks + [Chunk(bits, draw, |front|)])[..|front|] == chunks;
  }

  lemma {:induction false} ChunkCount(bits: nat, draw: nat, count: nat)
    ensures |ChunksOfDraw(bits, draw, count)| == count
  {
    hide Chunk;
    if count > 0 { ChunkCount(bits, draw, count - 1); }
  }

  /** The chunks of a draw are `vs` exactly when its low bits are those packed from `vs`. */
  lemma {:induction false} ChunksArePacked(bits: nat, draw: nat, vs: seq<nat>)
    requires AreChunks(bits, vs)
    ensures ChunksOfDraw(bits, draw, |vs|) == vs <==> draw % Pow2(bits * |vs|) == Packed(bits, vs)
  {
    hide Pow2, ChunksOfDraw, Packed;
    if vs == [] {
      OneMoreChunk(bits, draw, [], 0);
      NoExponent();
      DivisionIs(draw, draw, 1, 0);
    } else {
      var n, last := |vs| - 1, vs[|vs| - 1];
      var front, scale := vs[..n], Pow2(bits * n);
      assert vs == front + [last];
      ChunksArePacked(bits, draw, front);
      OneMoreChunk(bits, draw, front, last);
      PackedFits(bits, front);
      NextScale(bits, n);
      RemainderSplit(draw, scale, Pow2(bits));
      SameParts(draw % scale, (draw / scale) % Pow2(bits), Packed(bits, front), last, scale);
    }
  }

  /** A remainder by `s * b` consists of the remainder by `s` and the next digit. */
  lemma RemainderSplit(x: nat, s: nat, b: nat)
    requires s > 0 && b > 0
    ensures s * b > 0 && x % (s * b) == x % s + (x / s) % b * s
  {
    var y := x / s;
    assert x == y * s + x % s;
    assert y == y / b * b + y % b;
    Nested(x, s, b, y / b, y % b, x % s);
  }

  lemma SameParts(r: nat, d: nat, r': nat, d': nat, s: nat)
    requires r < s && r' < s
    ensures r + d * s == r' + d' * s <==> r == r' && d == d'
  {
    MultiplesApart(d, d', s);
    MultiplesApart(d', d, s);
  }

  lemma {:induction false} VectorHitsArePacked(n: nat, bits: nat, vs: seq<nat>)
    requires AreChunks(bits, vs)
    ensures VectorHits(n, bits, vs) == Hits(n, 1, Pow2(bits * |vs|), Packed(bits, vs))
  {
    hide ChunksOfDraw, Packed, Pow2;
    if n > 0 {
      VectorHitsArePacked(n - 1, bits, vs);
      ChunksArePacked(bits, n - 1, vs);
      DivisionIs(n - 1, n - 1, 1, 0);
    }
  }

  /** Any values of all the chunks of a draw together come from the same number of draws: the chunks are
      independent, and with 63 bits 2^(63 - bits * max) draws yield each vector. */
  lemma VectorsAreUniform(width: nat, bits: nat, vs: seq<nat>)
    requires bits * |vs| <= width && AreChunks(bits, vs)
    ensures VectorHits(Pow2(width), bits, vs) == Pow2(width - bits * |vs|)
  {
    hide Pow2, Hits, VectorHits, Packed;
    VectorHitsArePacked(Pow2(width), bits, vs);
    PackedFits(bits, vs);
    ChunksAreUniform(width, bits * |vs|, 0, Packed(bits, vs));
    assert Pow2(0) == 1 by { NoExponent(); }
  }

  lemma NoExponent()
    ensures Pow2(0) == 1
  {
  }

  class Generator {
    const alphabet: string
    const letterIdxBits: nat
    const letterIdxMask: nat
    const letterIdxMax: nat

    ghost predicate Valid() {
      && letterIdxBits == BinaryDigits(|alphabet|) && letterIdxMask == Pow2(letterIdxBits) - 1
      && letterIdxMax == DRAW_BITS / letterIdxBits
    }

    /** An alphabet is a Go string, so its length is an int64. */
    constructor (alphabet: string)
      requires |alphabet| <= MAX_INT64
      ensures Valid() && this.alphabet == alphabet
      ensures letterIdxMax >= 1 && letterIdxBits * letterIdxMax <= 63 < letterIdxBits * (letterIdxMax + 1)
      ensures alphabet != [] ==> Pow2(letterIdxBits - 1) <= |alphabet| <= letterIdxMask
    {
      this.alphabet := alphabet;
      var bits := BinaryDigits(|alphabet|);
      if alphabet != [] { BinaryDigitsBound(|alphabet|); }
      BitsFitDraw(|alphabet|);
      letterIdxBits := bits;
      letterIdxMask := Pow2(bits) - 1;
      letterIdxMax := DRAW_BITS / bits;
    }

    /** The token made from a finite prefix of the random draws, or None when they do not suffice. */
    method Next(tokenLength: nat, draws: seq<nat>) returns (token: Option<string>)
      requires Valid() && letterIdxMax >= 1 && draws != []
      ensures token == TokenOf(alphabet, letterIdxBits, letterIdxMax, tokenLength, draws)
    {
      hide Chunks, ChunksOfDraw, Letters, Reversed, BinaryDigits, Pow2, FirstChunks;
      var b := new char[tokenLength];
      var i := tokenLength - 1;
      var cache, remain, next := draws[0], letterIdxMax, 1;
      ghost var bits, max := letterIdxBits, letterIdxMax;
      NoChunks(bits, max, draws, alphabet);
      NoShift(bits, cache);
      while i >= 0
        invariant -1 <= i < tokenLength && 1 <= next <= |draws| && remain <= max
        invariant cache == draws[next - 1] / Pow2(bits * (max - remain))
        invariant |Letters(alphabet, FirstChunks(bits, max, draws, next, max - remain))| == tokenLength - 1 - i
        invariant b[i + 1..] == Reversed(Letters(alphabet, FirstChunks(bits, max, draws, next, max - remain)))
        decreases |draws| - next, remain
      {
        if remain == 0 {
          NextDraw(bits, max, draws, next);
          if next == |draws| { return None; }
          cache, remain, next := draws[next], letterIdxMax, next + 1;
          NoShift(bits, cache);
        }
        var idx := cache % (letterIdxMask + 1);
        NextLetter(alphabet, bits, max, draws, next, max - remain, cache);
        if idx < |alphabet| {
          b[i] := alphabet[idx];
          assert b[i..] == [alphabet[idx]] + b[i + 1..];
          i := i - 1;
        }
        cache := cache / (letterIdxMask + 1);
        remain := remain - 1;
      }
      EnoughLetters(alphabet, bits, max, draws, next, max - remain, tokenLength);
      assert b[..] == b[i + 1..];
      return Some(b[..]);
    }
  }
}
