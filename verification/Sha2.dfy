/** The SHA-2 compression function: its definition (FIPS 180-4, sections 6.2.2 and 6.4.2), and the
    looped and unrolled forms on a circular schedule of sixteen words. */
module Sha2 {
  import opened Bytes

  /** What distinguishes SHA-256 from SHA-512: the word length in bytes, the round constants, the
      initial value, addition of words, and the six logical functions. */
  datatype Variant = Variant(
    n: nat,
    k: seq<nat>,
    iv: seq<nat>,
    add: (nat, nat) -> nat,
    bigSigma0: nat -> nat,
    bigSigma1: nat -> nat,
    smallSigma0: nat -> nat,
    smallSigma1: nat -> nat,
    ch: (nat, nat, nat) -> nat,
    maj: (nat, nat, nat) -> nat)

  /** What addition of words must satisfy. */
  datatype Law = Bounded | Commutative | Associative

  ghost predicate Obeys(v: Variant, law: Law) {
    match law
    case Bounded => forall x: nat, y: nat :: Sum(v, x, y) < Pow(256, v.n)
    case Commutative => forall x: nat, y: nat :: Sum(v, x, y) == Sum(v, y, x)
    case Associative => forall x: nat, y: nat, z: nat :: Sum(v, Sum(v, x, y), z) == Sum(v, x, Sum(v, y, z))
  }

  ghost predicate Lawful(v: Variant) {
    && (v.n == 4 || v.n == 8)
    && |v.k| >= 16 && |v.k| % 8 == 0
    && |v.iv| == 8
    && (forall i :: 0 <= i < 8 ==> v.iv[i] < Pow(256, v.n))
    && (forall law :: Obeys(v, law))
  }

  lemma SumBounded(v: Variant, x: nat, y: nat)
    requires Lawful(v)
    ensures Sum(v, x, y) < Pow(256, v.n)
  {
    assert Obeys(v, Bounded);
  }

  lemma SumCommutes(v: Variant, x: nat, y: nat)
    requires Lawful(v)
    ensures Sum(v, x, y) == Sum(v, y, x)
  {
    assert Obeys(v, Commutative);
  }

  lemma SumAssociates(v: Variant, x: nat, y: nat, z: nat)
    requires Lawful(v)
    ensures Sum(v, Sum(v, x, y), z) == Sum(v, x, Sum(v, y, z))
  {
    assert Obeys(v, Associative);
  }

  function Sum(v: Variant, x: nat, y: nat): nat {
    v.add(x, y)
  }

  // ---- Definition ----

  /** The working variables. */
  datatype Registers = Registers(a: nat, b: nat, c: nat, d: nat, e: nat, f: nat, g: nat, h: nat)

  function FirstSum(v: Variant, e: nat, f: nat, g: nat, h: nat, k: nat, w: nat): nat {
    Sum(v, Sum(v, Sum(v, Sum(v, h, v.bigSigma1(e)), v.ch(e, f, g)), k), w)
  }

  function SecondSum(v: Variant, a: nat, b: nat, c: nat): nat {
    Sum(v, v.bigSigma0(a), v.maj(a, b, c))
  }

  function Round(v: Variant, r: Registers, k: nat, w: nat): Registers {
    var t1, t2 := FirstSum(v, r.e, r.f, r.g, r.h, k, w), SecondSum(v, r.a, r.b, r.c);
    Registers(Sum(v, t1, t2), r.a, r.b, r.c, Sum(v, r.d, t1), r.e, r.f, r.g)
  }

  /** Word t of the message schedule. */
  function Scheduled(v: Variant, m: seq<nat>, t: nat): nat
    requires |m| == 16
  {
    if t < 16 then m[t]
    else Sum(v, Sum(v, Sum(v, v.smallSigma1(Scheduled(v, m, t - 2)), Scheduled(v, m, t - 7)),
                       v.smallSigma0(Scheduled(v, m, t - 15))), Scheduled(v, m, t - 16))
  }

  /** The working variables after t rounds. */
  function After(v: Variant, start: Registers, m: seq<nat>, t: nat): Registers
    requires |m| == 16 && t <= |v.k|
  {
    if t == 0 then start
    else Round(v, After(v, start, m, t - 1), v.k[t - 1], Scheduled(v, m, t - 1))
  }

  function Loaded(s: seq<nat>): Registers
    requires |s| == 8
  {
    Registers(s[0], s[1], s[2], s[3], s[4], s[5], s[6], s[7])
  }

  function Compress(v: Variant, s: seq<nat>, m: seq<nat>): (r: seq<nat>)
    requires |s| == 8 && |m| == 16
    ensures |r| == 8
  {
    seq(8, i requires 0 <= i < 8 => Sum(v, Listed(After(v, Loaded(s), m, |v.k|))[i], s[i]))
  }

  function Listed(r: Registers): (s: seq<nat>)
    ensures |s| == 8
  {
    [r.a, r.b, r.c, r.d, r.e, r.f, r.g, r.h]
  }

  // ---- The circular schedule ----

  function Slot(t: nat): (r: nat)
    ensures r < 16
  {
    t % 16
  }

  /** The sixteen words hold the last sixteen of the schedule, each at its index modulo 16. */
  ghost predicate Circular(v: Variant, m: seq<nat>, w: seq<nat>, j: nat) {
    |m| == 16 == |w| && forall t {:trigger Slot(t)} :: 0 <= t < j <= t + 16 ==> w[Slot(t)] == Scheduled(v, m, t)
  }

  lemma CircularFirst(v: Variant, m: seq<nat>, w: seq<nat>, j: nat)
    requires j < 16 && Circular(v, m, w, j)
    ensures Circular(v, m, w[j := m[j]], j + 1)
  {}

  /** The in-place update of one word is one step of the schedule. */
  lemma CircularNext(v: Variant, m: seq<nat>, w: seq<nat>, j: nat)
    requires Lawful(v) && j >= 16 && Circular(v, m, w, j)
    ensures Expanded(v, w, j) == Scheduled(v, m, j)
    ensures Circular(v, m, w[j % 16 := Expanded(v, w, j)], j + 1)
  {
    ExpandedIsScheduled(v, m, w, j);
    SlotsMove(v, m, w, j, Expanded(v, w, j));
  }

  lemma SlotsMove(v: Variant, m: seq<nat>, w: seq<nat>, j: nat, x: nat)
    requires j >= 16 && Circular(v, m, w, j) && x == Scheduled(v, m, j)
    ensures Circular(v, m, w[j % 16 := x], j + 1)
  {}

  lemma ExpandedIsScheduled(v: Variant, m: seq<nat>, w: seq<nat>, j: nat)
    requires Lawful(v) && j >= 16 && Circular(v, m, w, j)
    ensures Expanded(v, w, j) == Scheduled(v, m, j)
  {
    SlotsRead(v, m, w, j);
    var x, s0, s1, y := Scheduled(v, m, j - 16), Scheduled(v, m, j - 15), Scheduled(v, m, j - 2), Scheduled(v, m, j - 7);
    SumCommutes(v, x, Sum(v, Sum(v, v.smallSigma1(s1), y), v.smallSigma0(s0)));
  }

  lemma SlotsRead(v: Variant, m: seq<nat>, w: seq<nat>, j: nat)
    requires j >= 16 && Circular(v, m, w, j)
    ensures w[j % 16] == Scheduled(v, m, j - 16) && w[(j + 1) % 16] == Scheduled(v, m, j - 15)
    ensures w[(j + 14) % 16] == Scheduled(v, m, j - 2) && w[(j + 9) % 16] == Scheduled(v, m, j - 7)
  {
    SlotsModulo(j);
    var x, s0, s1, y := Slot(j - 16), Slot(j - 15), Slot(j - 2), Slot(j - 7);
  }

  lemma SlotsModulo(j: nat)
    requires j >= 16
    ensures Slot(j - 16) == j % 16 && Slot(j - 15) == (j + 1) % 16
    ensures Slot(j - 2) == (j + 14) % 16 && Slot(j - 7) == (j + 9) % 16
  {}

  /** `W[j&0x0f] += s1 + W[(j+9)&0x0f] + s0`. */
  function Expanded(v: Variant, w: seq<nat>, j: nat): nat
    requires |w| == 16
  {
    var s0, s1 := v.smallSigma0(w[(j + 1) % 16]), v.smallSigma1(w[(j + 14) % 16]);
    Sum(v, w[j % 16], Sum(v, Sum(v, s1, w[(j + 9) % 16]), s0))
  }

  // ---- The looped transform ----

  /** The registers hold the working variables after j rounds. (Stated for every t equal to j, so
      that the rounds stay out of proofs that do not ask for that turn.) */
  ghost predicate AtRound(v: Variant, start: Registers, m: seq<nat>, j: nat, r: Registers) {
    |m| == 16 && j <= |v.k| && forall t :: t == j ==> r == After(v, start, m, Turn(t))
  }

  function Turn(t: nat): (r: nat)
    ensures r == t
  {
    t
  }

  lemma AtStart(v: Variant, start: Registers, m: seq<nat>)
    requires |m| == 16
    ensures AtRound(v, start, m, 0, start)
  {}

  lemma AtEnd(v: Variant, start: Registers, m: seq<nat>, r: Registers)
    requires AtRound(v, start, m, |v.k|, r)
    ensures r == After(v, start, m, |v.k|)
  {
    var t := Turn(|v.k|);
  }

  lemma NextRound(v: Variant, start: Registers, m: seq<nat>, j: nat, r: Registers)
    requires AtRound(v, start, m, j, r) && j < |v.k|
    ensures AtRound(v, start, m, j + 1, Round(v, r, v.k[j], Scheduled(v, m, j)))
  {
    var t := Turn(j);
  }

  /** The output may be the same array as the state or the data. */
  method Transform(v: Variant, stateIn: array<nat>, data: array<nat>, stateOut: array<nat>)
    requires Lawful(v) && stateIn.Length >= 8 && data.Length >= 16 && stateOut.Length >= 8
    modifies stateOut
    ensures stateOut[..8] == Compress(v, old(stateIn[..8]), old(data[..16]))
    ensures stateOut[8..] == old(stateOut[8..])
  {
    var r := Rounds(v, stateIn[..8], data[..16]);
    AtEnd(v, Loaded(stateIn[..8]), data[..16], r);
    AddState(v, stateIn, stateOut, r);
  }

  method Rounds(v: Variant, state: seq<nat>, data: seq<nat>) returns (r: Registers)
    requires Lawful(v) && |state| == 8 && |data| == 16
    ensures AtRound(v, Loaded(state), data, |v.k|, r)
  {
    r := Loaded(state);
    ghost var start := r;
    var words := new nat[16](_ => 0);
    var j := 0;
    AtStart(v, start, data);
    while j < 16
      invariant 0 <= j <= 16
      invariant Circular(v, data, words[..], j) && AtRound(v, start, data, j, r)
    {
      CircularFirst(v, data, words[..], j);
      NextRound(v, start, data, j, r);
      words[j] := data[j];
      r := MoveRegisters(v, r, v.k[j], words[j]);
      j := j + 1;
    }
    while j < |v.k|
      invariant 16 <= j <= |v.k|
      invariant Circular(v, data, words[..], j) && AtRound(v, start, data, j, r)
    {
      CircularNext(v, data, words[..], j);
      NextRound(v, start, data, j, r);
      words[j % 16] := Expanded(v, words[..], j);
      r := MoveRegisters(v, r, v.k[j], words[j % 16]);
      j := j + 1;
    }
  }

  /** The compression step of both loops. */
  method MoveRegisters(v: Variant, r: Registers, k: nat, w: nat) returns (r': Registers)
    ensures r' == Round(v, r, k, w)
  {
    var a, b, c, d, e, f, g, h := r.a, r.b, r.c, r.d, r.e, r.f, r.g, r.h;
    var t1 := FirstSum(v, e, f, g, h, k, w);
    var t2 := SecondSum(v, a, b, c);
    h := g;
    g := f;
    f := e;
    e := Sum(v, d, t1);
    d := c;
    c := b;
    b := a;
    a := Sum(v, t1, t2);
    r' := Registers(a, b, c, d, e, f, g, h);
  }

  /** `state_out[i] = state_in[i] + register`. */
  method AddState(v: Variant, stateIn: array<nat>, stateOut: array<nat>, r: Registers)
    requires Lawful(v) && stateIn.Length >= 8 && stateOut.Length >= 8
    modifies stateOut
    ensures forall i :: 0 <= i < 8 ==> stateOut[i] == Sum(v, Listed(r)[i], old(stateIn[i]))
    ensures stateOut[8..] == old(stateOut[8..])
  {
    ghost var was := stateIn[..8];
    stateOut[0] := Sum(v, stateIn[0], r.a);
    stateOut[1] := Sum(v, stateIn[1], r.b);
    stateOut[2] := Sum(v, stateIn[2], r.c);
    stateOut[3] := Sum(v, stateIn[3], r.d);
    stateOut[4] := Sum(v, stateIn[4], r.e);
    stateOut[5] := Sum(v, stateIn[5], r.f);
    stateOut[6] := Sum(v, stateIn[6], r.g);
    stateOut[7] := Sum(v, stateIn[7], r.h);
    var l := Listed(r);
    SumCommutes(v, l[0], was[0]);
    SumCommutes(v, l[1], was[1]);
    SumCommutes(v, l[2], was[2]);
    SumCommutes(v, l[3], was[3]);
    SumCommutes(v, l[4], was[4]);
    SumCommutes(v, l[5], was[5]);
    SumCommutes(v, l[6], was[6]);
    SumCommutes(v, l[7], was[7]);
  }

  // ---- The unrolled transform ----

  /** One round macro: it takes the next schedule word, copied from the data in the first sixteen
      rounds and expanded after, and changes only the registers passed fourth and eighth. */
  method RoundMacro(v: Variant, words: array<nat>, data: seq<nat>, j: nat, ghost start: Registers,
                    a: nat, b: nat, c: nat, d: nat, e: nat, f: nat, g: nat, h: nat)
    returns (d': nat, h': nat)
    requires Lawful(v) && words.Length == 16 && j < |v.k| && Circular(v, data, words[..], j)
    requires AtRound(v, start, data, j, Registers(a, b, c, d, e, f, g, h))
    modifies words
    ensures Circular(v, data, words[..], j + 1)
    ensures AtRound(v, start, data, j + 1, Registers(h', a, b, c, d', e, f, g))
  {
    NextRound(v, start, data, j, Registers(a, b, c, d, e, f, g, h));
    var x := NextWord(v, words, data, j);
    var t1 := FirstSum(v, e, f, g, h, v.k[j], x);
    d' := Sum(v, d, t1);
    h' := Sum(v, Sum(v, t1, v.bigSigma0(a)), v.maj(a, b, c));
    SumAssociates(v, t1, v.bigSigma0(a), v.maj(a, b, c));
  }

  method NextWord(v: Variant, words: array<nat>, data: seq<nat>, j: nat) returns (x: nat)
    requires Lawful(v) && words.Length == 16 && Circular(v, data, words[..], j)
    modifies words
    ensures x == Scheduled(v, data, j) && Circular(v, data, words[..], j + 1)
  {
    if j < 16 {
      CircularFirst(v, data, words[..], j);
      words[j] := data[j];
      x := data[j];
    } else {
      CircularNext(v, data, words[..], j);
      x := Expanded(v, words[..], j);
      words[j % 16] := x;
    }
  }

  /** Eight rounds with the registers renamed instead of moved. */
  method EightRounds(v: Variant, words: array<nat>, data: seq<nat>, j: nat, r: Registers, ghost start: Registers)
    returns (r': Registers)
    requires Lawful(v) && words.Length == 16 && j + 8 <= |v.k|
    requires Circular(v, data, words[..], j) && AtRound(v, start, data, j, r)
    modifies words
    ensures Circular(v, data, words[..], j + 8) && AtRound(v, start, data, j + 8, r')
  {
    var a, b, c, d, e, f, g, h := r.a, r.b, r.c, r.d, r.e, r.f, r.g, r.h;
    d, h := RoundMacro(v, words, data, j, start, a, b, c, d, e, f, g, h);
    c, g := RoundMacro(v, words, data, j + 1, start, h, a, b, c, d, e, f, g);
    b, f := RoundMacro(v, words, data, j + 2, start, g, h, a, b, c, d, e, f);
    a, e := RoundMacro(v, words, data, j + 3, start, f, g, h, a, b, c, d, e);
    h, d := RoundMacro(v, words, data, j + 4, start, e, f, g, h, a, b, c, d);
    g, c := RoundMacro(v, words, data, j + 5, start, d, e, f, g, h, a, b, c);
    f, b := RoundMacro(v, words, data, j + 6, start, c, d, e, f, g, h, a, b);
    e, a := RoundMacro(v, words, data, j + 7, start, b, c, d, e, f, g, h, a);
    r' := Registers(a, b, c, d, e, f, g, h);
  }

  method TransformUnrolled(v: Variant, stateIn: array<nat>, data: array<nat>, stateOut: array<nat>)
    requires Lawful(v) && stateIn.Length >= 8 && data.Length >= 16 && stateOut.Length >= 8
    modifies stateOut
    ensures stateOut[..8] == Compress(v, old(stateIn[..8]), old(data[..16]))
    ensures stateOut[8..] == old(stateOut[8..])
  {
    var r := UnrolledRounds(v, stateIn[..8], data[..16]);
    AtEnd(v, Loaded(stateIn[..8]), data[..16], r);
    AddState(v, stateIn, stateOut, r);
  }

  method UnrolledRounds(v: Variant, state: seq<nat>, data: seq<nat>) returns (r: Registers)
    requires Lawful(v) && |state| == 8 && |data| == 16
    ensures AtRound(v, Loaded(state), data, |v.k|, r)
  {
    r := Loaded(state);
    ghost var start := r;
    var words := new nat[16](_ => 0);
    var j := 0;
    AtStart(v, start, data);
    while j < |v.k|
      invariant 0 <= j <= |v.k| && j % 8 == 0
      invariant Circular(v, data, words[..], j) && AtRound(v, start, data, j, r)
    {
      r := EightRounds(v, words, data, j, r, start);
      j := j + 8;
    }
  }
}
