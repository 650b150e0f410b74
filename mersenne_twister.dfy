/**
 * The MT19937 pseudo-random generator of Matsumoto and Nishimura (ACM TOMACS 8(1), 1998)
 * as the repository writes it: a 624-word buffer seeded by the `init_genrand` recurrence,
 * regenerated in place by three loops once every word has been read, and each word
 * tempered on the way out.
 *
 * The in-place regeneration is proved against the textbook definition of the generator,
 * the linear recurrence x[k + N] = x[k + M] xor A(upper(x[k]) | lower(x[k + 1])) over the
 * infinite word stream that starts with the seeded buffer (`Stream`): the k-th word that
 * `Integer()` returns is `Output(seed, k)`, the tempering of x[N + k].
 */
module Twister {

  /** Number of words of state (MT_N) and the recurrence's middle offset (MT_M). */
  const N: nat := 624
  const M: nat := 397

  /** Last row of the twist matrix A. */
  const MatrixA: bv32 := 0x9908_b0df
  const SeedMultiplier: bv32 := 1812433253

  // ---------------------------------------------------------------------------
  // Seeding

  /**
   * n as a 32-bit word (n modulo 2^32), by counting: the conversion of a non-negative
   * C integer to `unsigned int`.
   */
  function ToWord(n: nat): bv32
  {
    if n == 0 then 0 else ToWord(n - 1) + 1
  }

  /**
   * The seed as the source stores it in word 0: a C `int` read as `unsigned int`. A
   * negative seed's bit pattern is the complement of |seed| - 1 (two's complement).
   */
  function SeedWord0(seed: int): (r: bv32)
    requires -0x8000_0000 <= seed < 0x8000_0000
    ensures 0 <= seed ==> r == ToWord(seed)
    ensures seed < 0 ==> r + ToWord(-seed) == 0
  {
    if seed >= 0 then ToWord(seed)
    else !ToWord(-seed - 1)
  }

  /**
   * Word i of the seeded buffer from word i - 1. The source forms the product in
   * unsigned long and stores it in a 32-bit word; both are arithmetic modulo 2^32.
   */
  function SeedStep(prev: bv32, i: nat): bv32
  {
    SeedMultiplier * (prev ^ (prev >> 30)) + ToWord(i)
  }

  function SeedWord(first: bv32, i: nat): bv32
    decreases i
  {
    if i == 0 then first else SeedStep(SeedWord(first, i - 1), i)
  }

  lemma SeedWordNext(first: bv32, i: nat, prev: bv32)
    requires i >= 1 && prev == SeedWord(first, i - 1)
    ensures SeedStep(prev, i) == SeedWord(first, i)
  {
  }

  /** The whole buffer right after seeding. */
  function Seeded(first: bv32): (s: seq<bv32>)
    ensures |s| == N
  {
    seq(N, i requires 0 <= i => SeedWord(first, i))
  }

  /** Seeding stores the seed in word 0 and derives every later word from the one before. */
  lemma SeededRecurrence(first: bv32)
    ensures Seeded(first)[0] == first
    ensures forall i :: 1 <= i < N ==> Seeded(first)[i] == SeedStep(Seeded(first)[i - 1], i)
  {
  }

  // ---------------------------------------------------------------------------
  // The twist

  /**
   * One application of the recurrence: the top bit of `upper` joined to the low 31 bits
   * of `lower`, shifted right once and multiplied (over GF(2)) by A, xored into `partner`.
   * Multiplying by A is the shift plus an xor with A's last row when the shifted-out bit is 1.
   */
  function Mix(upper: bv32, lower: bv32, partner: bv32): (r: bv32)
    // The step can be undone: bit 31 of r ^ partner is the low bit of `lower`, and once
    // A's row is xored back out, shifting left recovers every other bit that went in.
    ensures (r ^ partner) >> 31 == lower & 1
    ensures (r ^ partner ^ (if lower & 1 == 1 then MatrixA else 0)) << 1
            == (upper & 0x8000_0000) | (lower & 0x7fff_fffe)
  {
    var x := (upper & 0x8000_0000) | (lower & 0x7fff_ffff);
    partner ^ (x >> 1) ^ (if x & 1 == 1 then MatrixA else 0)
  }

  /** The source writes the conditional xor as `(x & 1) * 0x9908b0df`; the two agree. */
  lemma MultiplyFormIsMix(upper: bv32, lower: bv32, partner: bv32)
    ensures var x := (upper & 0x8000_0000) | (lower & 0x7fff_ffff);
            Mix(upper, lower, partner) == partner ^ (x >> 1) ^ ((x & 1) * MatrixA)
  {
    var x := (upper & 0x8000_0000) | (lower & 0x7fff_ffff);
    assert x & 1 == 0 || x & 1 == 1;
  }

  /**
   * Word i of the regenerated buffer, as the three in-place loops compute it from the
   * old buffer `s`: below N - M the partner is still an old word; from N - M on it is a
   * word that this regeneration has already rewritten; the last word takes its low bits
   * from the new word 0.
   */
  function TwistWord(s: seq<bv32>, i: nat): bv32
    requires |s| == N && i < N
    decreases i
  {
    if i < N - M then Mix(s[i], s[i + 1], s[i + M])
    else if i < N - 1 then Mix(s[i], s[i + 1], TwistWord(s, i - (N - M)))
    else Mix(s[N - 1], TwistWord(s, 0), TwistWord(s, M - 1))
  }

  /** One step of each regeneration loop computes the word `TwistWord` describes. */
  lemma TwistWordHead(s: seq<bv32>, i: nat, upper: bv32, lower: bv32, partner: bv32)
    requires |s| == N && i < N - M
    requires upper == s[i] && lower == s[i + 1] && partner == s[i + M]
    ensures Mix(upper, lower, partner) == TwistWord(s, i)
  {
  }

  lemma TwistWordLast(s: seq<bv32>, upper: bv32, lower: bv32, partner: bv32)
    requires |s| == N
    requires upper == s[N - 1] && lower == TwistWord(s, 0) && partner == TwistWord(s, M - 1)
    ensures Mix(upper, lower, partner) == TwistWord(s, N - 1)
  {
  }

  lemma TwistWordMiddle(s: seq<bv32>, i: nat, upper: bv32, lower: bv32, partner: bv32)
    requires |s| == N && N - M <= i < N - 1
    requires upper == s[i] && lower == s[i + 1] && partner == TwistWord(s, i - (N - M))
    ensures Mix(upper, lower, partner) == TwistWord(s, i)
  {
  }

  function Twist(s: seq<bv32>): (t: seq<bv32>)
    requires |s| == N
    ensures |t| == N
  {
    seq(N, i requires 0 <= i < N => TwistWord(s, i))
  }

  // ---------------------------------------------------------------------------
  // Reference definition: the word stream of the linear recurrence

  /** x[k] of the generator whose first N words are `s`. */
  function Stream(s: seq<bv32>, k: nat): bv32
    requires |s| == N
    decreases k
  {
    if k < N then s[k] else Mix(Stream(s, k - N), Stream(s, k - N + 1), Stream(s, k - N + M))
  }

  /** Words base .. base + N - 1 of the stream. */
  function Window(s: seq<bv32>, base: nat): (w: seq<bv32>)
    requires |s| == N
    ensures |w| == N
  {
    seq(N, i requires 0 <= i < N => Stream(s, base + i))
  }

  /** The three loops of the regeneration compute exactly the next N words of the recurrence. */
  lemma {:induction false} TwistWordIsRecurrence(s: seq<bv32>, i: nat)
    requires |s| == N && i < N
    ensures TwistWord(s, i) == Stream(s, N + i)
    decreases i
  {
    if i < N - M {
    } else if i < N - 1 {
      TwistWordIsRecurrence(s, i - (N - M));
    } else {
      TwistWordIsRecurrence(s, 0);
      TwistWordIsRecurrence(s, M - 1);
    }
  }

  /** Restarting the recurrence from any window gives the same stream, shifted. */
  lemma {:induction false} StreamFromWindow(s: seq<bv32>, base: nat, k: nat)
    requires |s| == N
    ensures Stream(Window(s, base), k) == Stream(s, base + k)
    decreases k
  {
    var w := Window(s, base);
    if k >= N {
      StreamFromWindow(s, base, k - N);
      StreamFromWindow(s, base, k - N + 1);
      StreamFromWindow(s, base, k - N + M);
      StreamStep(w, k);
      StreamStep(s, base + k);
    } else {
      assert w[k] == Stream(s, base + k);
    }
  }

  /** The recurrence itself, for one index past the seeded words. */
  lemma StreamStep(s: seq<bv32>, k: nat)
    requires |s| == N && k >= N
    ensures Stream(s, k) == Mix(Stream(s, k - N), Stream(s, k - N + 1), Stream(s, k - N + M))
  {
  }

  /** Regenerating the buffer that holds one window of the stream yields the next window. */
  lemma TwistAdvancesWindow(s: seq<bv32>, base: nat)
    requires |s| == N
    ensures Twist(Window(s, base)) == Window(s, base + N)
  {
    var w := Window(s, base);
    forall i | 0 <= i < N
      ensures Twist(w)[i] == Window(s, base + N)[i]
    {
      TwistWordIsRecurrence(w, i);
      StreamFromWindow(s, base, N + i);
    }
  }

  /** The first N words of the stream are the seeded buffer itself. */
  lemma SeededStream(first: bv32)
    ensures forall i :: 0 <= i < N ==> Stream(Seeded(first), i) == SeedWord(first, i)
  {
  }

  /**
   * If `s` holds words base .. base + N - 1 of the stream, the regeneration computes
   * words base + N .. base + 2N - 1.
   */
  lemma NextWindow(o: seq<bv32>, base: nat, s: seq<bv32>)
    requires |o| == N && |s| == N
    requires forall i :: 0 <= i < N ==> s[i] == Stream(o, base + i)
    ensures forall k :: 0 <= k < N ==> TwistWord(s, k) == Stream(o, base + N + k)
  {
    assert s == Window(o, base);
    forall k | 0 <= k < N
      ensures TwistWord(s, k) == Stream(o, base + N + k)
    {
      TwistWordIsRecurrence(s, k);
      StreamFromWindow(o, base, N + k);
    }
  }

  // ---------------------------------------------------------------------------
  // Tempering

  /**
   * The tempering transform applied to every word on its way out. It loses nothing:
   * `Untemper` recovers the word, so distinct buffer words give distinct outputs.
   */
  function Temper(w: bv32): (r: bv32)
    ensures Untemper(r) == w
  {
    var y1 := w ^ (w >> 11);
    var y2 := y1 ^ ((y1 << 7) & 0x9d2c_5680);
    var y3 := y2 ^ ((y2 << 15) & 0xefc6_0000);
    UndoShiftRight11(w);
    UndoShiftLeft7(y1);
    UndoShiftLeft15(y2);
    UndoShiftRight18(y3);
    y3 ^ (y3 >> 18)
  }

  /** The inverse of tempering, undoing its four steps in reverse order. */
  function Untemper(y: bv32): bv32
  {
    UnshiftRight11(UnshiftLeft7(UnshiftLeft15(UnshiftRight18(y))))
  }

  /** Solves y == w ^ (w >> 18) for w: the shift exceeds half a word, so once suffices. */
  function UnshiftRight18(y: bv32): bv32
  {
    y ^ (y >> 18)
  }

  /** Solves y == w ^ ((w << 15) & 0xefc60000) for w; once suffices here too. */
  function UnshiftLeft15(y: bv32): bv32
  {
    y ^ ((y << 15) & 0xefc6_0000)
  }

  /** Solves y == w ^ ((w << 7) & 0x9d2c5680) for w, seven low bits more per round. */
  function UnshiftLeft7(y: bv32): bv32
  {
    var x1 := y ^ ((y << 7) & 0x9d2c_5680);
    var x2 := y ^ ((x1 << 7) & 0x9d2c_5680);
    var x3 := y ^ ((x2 << 7) & 0x9d2c_5680);
    y ^ ((x3 << 7) & 0x9d2c_5680)
  }

  /** Solves y == w ^ (w >> 11) for w, eleven high bits more per round. */
  function UnshiftRight11(y: bv32): bv32
  {
    var x1 := y ^ (y >> 11);
    y ^ (x1 >> 11)
  }

  lemma UndoShiftRight11(w: bv32)
    ensures UnshiftRight11(w ^ (w >> 11)) == w
  {
  }

  lemma UndoShiftLeft7(w: bv32)
    ensures UnshiftLeft7(w ^ ((w << 7) & 0x9d2c_5680)) == w
  {
  }

  lemma UndoShiftLeft15(w: bv32)
    ensures UnshiftLeft15(w ^ ((w << 15) & 0xefc6_0000)) == w
  {
  }

  lemma UndoShiftRight18(w: bv32)
    ensures UnshiftRight18(w ^ (w >> 18)) == w
  {
  }

  /** Word k (counting from 0) that a generator whose seeded buffer was `s` hands out. */
  function StreamOutput(s: seq<bv32>, k: nat): bv32
    requires |s| == N
  {
    Temper(Stream(s, N + k))
  }

  /** The k-th word (counting from 0) of the generator seeded with `first`. */
  function Output(first: bv32, k: nat): bv32
  {
    StreamOutput(Seeded(first), k)
  }

  // ---------------------------------------------------------------------------
  // The generator object

  class MersenneTwister {
    const buffer: array<bv32>
    var index: nat
    /** The buffer as seeding left it; fixes the whole stream. */
    ghost const origin: seq<bv32>
    /** Position in the stream of the word held by `buffer[0]`. */
    ghost var base: nat
    /** How many words `Integer()` has returned. */
    ghost var drawn: nat

    ghost predicate Valid()
      reads this, buffer
    {
      buffer.Length == N && |origin| == N && index <= N &&
      (forall i :: 0 <= i < N ==> buffer[i] == Stream(origin, base + i)) &&
      base + index == N + drawn
    }

    constructor (seed: int)
      requires -0x8000_0000 <= seed < 0x8000_0000
      ensures Valid() && fresh(buffer)
      ensures origin == Seeded(SeedWord0(seed)) && buffer[..] == origin
      ensures index == N && drawn == 0
    {
      var first := SeedWord0(seed);
      var b := SeedBuffer(first);
      buffer := b;
      index := N;
      origin := Seeded(first);
      base := 0;
      drawn := 0;
      new;
      SeededStream(first);
    }

    /** The seeding loop of the constructor: word 0 is the seed, word i derives from word i - 1. */
    static method SeedBuffer(first: bv32) returns (b: array<bv32>)
      ensures fresh(b) && b.Length == N
      ensures forall k :: 0 <= k < N ==> b[k] == SeedWord(first, k)
    {
      b := new bv32[N];
      b[0] := first;
      var i := 1;
      while i < N
        invariant 1 <= i <= N
        invariant forall k :: 0 <= k < i ==> b[k] == SeedWord(first, k)
      {
        SeedWordNext(first, i, b[i - 1]);
        b[i] := SeedStep(b[i - 1], i);
        i := i + 1;
      }
    }

    /** The buffer holds the regeneration of `s`. */
    ghost predicate Twisted(s: seq<bv32>)
      reads this, buffer
      requires |s| == N
    {
      buffer.Length == N && forall k :: 0 <= k < N ==> buffer[k] == TwistWord(s, k)
    }

    /**
     * The regeneration block of `Integer()`: rewrites the whole buffer in place with the
     * next N words of the stream and restarts reading at word 0.
     */
    method Regenerate()
      requires Valid() && index >= N
      modifies this, buffer
      ensures Valid() && drawn == old(drawn) && base == old(base) + N
      ensures forall k :: 0 <= k < N ==> buffer[k] == TwistWord(old(buffer[..]), k)
      ensures index == 0
    {
      ghost var s := buffer[..];
      TwistBuffer();
      NextWindow(origin, base, s);
      index := 0;
      base := base + N;
    }

    /** The three loops of the regeneration, which rewrite the buffer in place. */
    method TwistBuffer()
      requires buffer.Length == N
      modifies buffer
      ensures forall k :: 0 <= k < N ==> buffer[k] == TwistWord(old(buffer[..]), k)
    {
      ghost var s := buffer[..];
      var i := TwistHead(s);
      TwistTail(s, i);
    }

    method TwistHead(ghost s: seq<bv32>) returns (i: nat)
      requires buffer.Length == N && buffer[..] == s
      modifies buffer
      ensures i == N - M
      ensures forall k :: 0 <= k < i ==> buffer[k] == TwistWord(s, k)
      ensures forall k :: i <= k < N ==> buffer[k] == s[k]
    {
      i := 0;
      while i < N - M
        invariant 0 <= i <= N - M
        invariant forall k :: 0 <= k < i ==> buffer[k] == TwistWord(s, k)
        invariant forall k :: i <= k < N ==> buffer[k] == s[k]
      {
        TwistWordHead(s, i, buffer[i], buffer[i + 1], buffer[i + M]);
        buffer[i] := Mix(buffer[i], buffer[i + 1], buffer[i + M]);
        i := i + 1;
      }
    }

    method TwistTail(ghost s: seq<bv32>, i0: nat)
      requires buffer.Length == N && |s| == N && i0 == N - M
      requires forall k :: 0 <= k < i0 ==> buffer[k] == TwistWord(s, k)
      requires forall k :: i0 <= k < N ==> buffer[k] == s[k]
      modifies buffer
      ensures forall k :: 0 <= k < N ==> buffer[k] == TwistWord(s, k)
    {
      TwistMiddle(s, i0);
      TwistLast(s);
    }

    method TwistMiddle(ghost s: seq<bv32>, i0: nat)
      requires buffer.Length == N && |s| == N && i0 == N - M
      requires forall k :: 0 <= k < i0 ==> buffer[k] == TwistWord(s, k)
      requires forall k :: i0 <= k < N ==> buffer[k] == s[k]
      modifies buffer
      ensures forall k :: 0 <= k < N - 1 ==> buffer[k] == TwistWord(s, k)
      ensures buffer[N - 1] == s[N - 1]
    {
      var i := i0;
      while i < N - 1
        invariant N - M <= i <= N - 1
        invariant forall k :: 0 <= k < i ==> buffer[k] == TwistWord(s, k)
        invariant forall k :: i <= k < N ==> buffer[k] == s[k]
      {
        TwistWordMiddle(s, i, buffer[i], buffer[i + 1], buffer[i - (N - M)]);
        buffer[i] := Mix(buffer[i], buffer[i + 1], buffer[i - (N - M)]);
        i := i + 1;
      }
    }

    method TwistLast(ghost s: seq<bv32>)
      requires buffer.Length == N && |s| == N
      requires forall k :: 0 <= k < N - 1 ==> buffer[k] == TwistWord(s, k)
      requires buffer[N - 1] == s[N - 1]
      modifies buffer
      ensures forall k :: 0 <= k < N ==> buffer[k] == TwistWord(s, k)
    {
      TwistWordLast(s, buffer[N - 1], buffer[0], buffer[M - 1]);
      buffer[N - 1] := Mix(buffer[N - 1], buffer[0], buffer[M - 1]);
    }

    /**
     * Returns the next word: regenerates first when every word has been read
     * (`index == N`), then tempers `buffer[index]` and advances `index`.
     */
    method Integer() returns (y: bv32)
      requires Valid()
      modifies this, buffer
      ensures Valid()
      ensures y == StreamOutput(origin, old(drawn))
      ensures drawn == old(drawn) + 1
      ensures index == if old(index) >= N then 1 else old(index) + 1
      ensures old(index) < N ==> unchanged(buffer)
      ensures old(index) >= N ==> Twisted(old(buffer[..]))
      ensures y == Temper(buffer[index - 1])
    {
      if index >= N {
        Regenerate();
      }
      y := buffer[index];
      index := index + 1;
      drawn := drawn + 1;
      y := Temper(y);
    }
  }

  /** `out` is the first |out| words handed out by a generator whose seeded buffer was `s`. */
  ghost predicate OutputPrefix(out: seq<bv32>, s: seq<bv32>)
    requires |s| == N
  {
    forall k :: 0 <= k < |out| ==> out[k] == StreamOutput(s, k)
  }

  lemma AppendOutput(out: seq<bv32>, s: seq<bv32>, y: bv32)
    requires |s| == N && OutputPrefix(out, s) && y == StreamOutput(s, |out|)
    ensures OutputPrefix(out + [y], s)
  {
  }

  /**
   * Draws n words from a freshly seeded generator. The result depends on the seed alone:
   * two generators built from the same seed produce the same sequence.
   */
  method Draw(seed: int, n: nat) returns (out: seq<bv32>)
    requires -0x8000_0000 <= seed < 0x8000_0000
    ensures |out| == n
    ensures forall k :: 0 <= k < n ==> out[k] == Output(SeedWord0(seed), k)
  {
    var g := new MersenneTwister(seed);
    out := [];
    while |out| < n
      invariant g.Valid() && g.drawn == |out| <= n
      invariant OutputPrefix(out, g.origin)
    {
      var y := g.Integer();
      AppendOutput(out, g.origin, y);
      out := out + [y];
    }
  }

}
