/** The SHA-1 of sha1.cpp: a context that absorbs bytes in place, a 16-word ring that is
    overwritten while the rounds run, and 80 unrolled rounds that rename the working
    variables instead of moving them. Everything is proved equal to Sha1Standard. */
module Sha1 {
  import opened Octets
  import opened Sha1Standard
  import opened Sha1Numbers

  type uint32 = x: int | 0 <= x < WORD_LIMIT

  // ----- the message schedule as a ring of 16 words ---------------------------------------

  ghost predicate Expanded(ws: Words, t: nat)
    requires 16 <= t < |ws|
  {
    ws[t] == Expand(ws[t - 3], ws[t - 8], ws[t - 14], ws[t - 16])
  }

  ghost predicate IsSchedule(ws: Words) {
    |ws| == 80 && forall t :: 16 <= t < 80 ==> Expanded(ws, t)
  }

  lemma {:induction false} ScheduleIsSchedule(block: Words, n: nat)
    requires |block| == 16 <= n
    ensures Schedule(block, n)[..16] == block
    ensures forall t :: 16 <= t < n ==> Expanded(Schedule(block, n), t)
  {
    if n > 16 {
      ScheduleIsSchedule(block, n - 1);
      var ws, shorter := Schedule(block, n), Schedule(block, n - 1);
      forall t | 16 <= t < n
        ensures Expanded(ws, t)
      {
        if t < n - 1 { assert Expanded(shorter, t); }
      }
    }
  }

  /** After i rounds the ring holds the last 16 schedule words; positions not yet visited
      by the first 16 rounds still hold the words as they were loaded. */
  ghost predicate Ring<W>(ring: seq<W>, raw: seq<W>, ws: seq<W>, i: nat)
    requires |ring| == |raw| == 16 && |ws| == 80
  {
    && (forall s :: i - 16 <= s < i && 0 <= s < 80 ==> ring[s % 16] == ws[s])
    && (forall s :: i <= s < 16 ==> ring[s] == raw[s])
  }

  lemma RingStep<W>(ring: seq<W>, raw: seq<W>, ws: seq<W>, i: nat)
    requires |ring| == |raw| == 16 && |ws| == 80 && i < 80
    requires Ring(ring, raw, ws, i)
    ensures Ring(ring[i % 16 := ws[i]], raw, ws, i + 1)
    ensures i < 16 ==> ring[i] == raw[i]
    ensures i >= 16 ==> ring[(i + 13) % 16] == ws[i - 3] && ring[(i + 8) % 16] == ws[i - 8]
    ensures i >= 16 ==> ring[(i + 2) % 16] == ws[i - 14] && ring[i % 16] == ws[i - 16]
  {
    if i >= 16 {
      assert (i - 3) % 16 == (i + 13) % 16 && (i - 8) % 16 == (i + 8) % 16;
      assert (i - 14) % 16 == (i + 2) % 16 && (i - 16) % 16 == i % 16;
    }
  }

  /** The word as a little-endian host loads it. */
  function LoadLittle(b0: bv8, b1: bv8, b2: bv8, b3: bv8): bv32 {
    (b3 as bv32 << 24) | (b2 as bv32 << 16) | (b1 as bv32 << 8) | (b0 as bv32)
  }

  function Rotl8(x: bv32): bv32 { (x << 8) | (x >> 24) }

  function Rotl24(x: bv32): bv32 { (x << 24) | (x >> 8) }

  function Swap(l: bv32): bv32 {
    (Rotl24(l) & 0xFF00FF00) | (Rotl8(l) & 0x00FF00FF)
  }

  lemma SwapLoads(b0: bv8, b1: bv8, b2: bv8, b3: bv8)
    ensures Swap(LoadLittle(b0, b1, b2, b3)) == Word(b0, b1, b2, b3)
  {
  }

  // ----- the five working variables over the 80 rounds ------------------------------------

  ghost predicate Stepped(run: seq<Regs>, ws: Words, t: nat)
    requires t < |ws| < |run|
  {
    run[t + 1] == Round(t, ws[t], run[t])
  }

  ghost predicate IsRun(run: seq<Regs>, ws: Words) {
    |run| == 81 && |ws| == 80 && forall t :: 0 <= t < 80 ==> Stepped(run, ws, t)
  }

  ghost function RunOf(h: Regs, ws: Words, n: nat): (run: seq<Regs>)
    requires n <= |ws|
    ensures |run| == n + 1
  {
    seq(n + 1, t requires 0 <= t <= n => Rounds(h, ws, t))
  }

  lemma RunOfIsRun(h: Regs, ws: Words)
    requires |ws| == 80
    ensures IsRun(RunOf(h, ws, 80), ws)
  {
    var run := RunOf(h, ws, 80);
    forall t | 0 <= t < 80
      ensures Stepped(run, ws, t)
    {
    }
  }

  /** What one block should go through: the words as loaded, the schedule, and the working
      variables before each round. */
  datatype Plan = Plan(raw: Words, ws: Words, run: seq<Regs>)

  ghost predicate IsPlan(p: Plan) {
    && |p.raw| == 16 && IsSchedule(p.ws) && IsRun(p.run, p.ws)
    && forall i :: 0 <= i < 16 ==> Swap(p.raw[i]) == p.ws[i]
  }

  /** The ring and the working variables stand where the plan says before round i. */
  ghost predicate AtRound(block: array<bv32>, p: Plan, i: nat, r: Regs)
    reads block
  {
    && block.Length == 16 && IsPlan(p) && i <= 80
    && Ring(block[..], p.raw, p.ws, i) && r == p.run[i]
  }

  /** The macro blk0. */
  method Blk0(block: array<bv32>, i: nat, ghost raw: Words, ghost ws: Words) returns (r: bv32)
    requires block.Length == |raw| == 16 && |ws| == 80 && i < 16
    requires Ring(block[..], raw, ws, i) && Swap(raw[i]) == ws[i]
    modifies block
    ensures r == ws[i] && Ring(block[..], raw, ws, i + 1)
  {
    hide Swap, Ring;
    RingStep(block[..], raw, ws, i);
    ghost var before := block[..];
    block[i] := Swap(block[i]);
    r := block[i];
    assert block[..] == before[i % 16 := ws[i]];
  }

  /** The macro blk: i & 15 selects the oldest word, which is overwritten. */
  method Blk(block: array<bv32>, i: nat, ghost raw: Words, ghost ws: Words) returns (r: bv32)
    requires block.Length == |raw| == 16 && |ws| == 80 && 16 <= i < 80
    requires Ring(block[..], raw, ws, i) && Expanded(ws, i)
    modifies block
    ensures r == ws[i] && Ring(block[..], raw, ws, i + 1)
  {
    hide Expand, Ring;
    RingStep(block[..], raw, ws, i);
    ghost var before := block[..];
    block[i % 16] := Expand(block[(i + 13) % 16], block[(i + 8) % 16], block[(i + 2) % 16], block[i % 16]);
    r := block[i % 16];
    assert block[..] == before[i % 16 := ws[i]];
  }

  // The boolean forms and the sum as the macros write them.
  function Choose(w: bv32, x: bv32, y: bv32): bv32 { (w & (x ^ y)) ^ y }

  function Odd(w: bv32, x: bv32, y: bv32): bv32 { w ^ x ^ y }

  function Most(w: bv32, x: bv32, y: bv32): bv32 { ((w | x) & y) | (w & x) }

  function Accumulate(z: bv32, f: bv32, b: bv32, k: bv32, v5: bv32): bv32 {
    Plus(z, Plus(Plus(Plus(f, b), k), v5))
  }

  lemma ChooseIsCh(w: bv32, x: bv32, y: bv32)
    ensures Choose(w, x, y) == Ch(w, x, y)
  {
    ChooseBits(w, x, y);
  }

  lemma ChooseBits(w: bv32, x: bv32, y: bv32)
    ensures ((w & (x ^ y)) ^ y) == (w & x) ^ (!w & y)
  {
  }

  lemma MostIsMaj(w: bv32, x: bv32, y: bv32)
    ensures Most(w, x, y) == Maj(w, x, y)
  {
    MostBits(w, x, y);
  }

  lemma MostBits(w: bv32, x: bv32, y: bv32)
    ensures (((w | x) & y) | (w & x)) == (w & x) ^ (w & y) ^ (x & y)
  {
  }

  lemma AccumulateIsSum(z: bv32, f: bv32, b: bv32, k: bv32, v5: bv32)
    ensures Accumulate(z, f, b, k, v5) == Sum5(v5, f, z, k, b)
  {
    hide Num, Plus;
    PlusIs(f, b);
    AddOne(Plus(f, b), k, Num(f) + Num(b));
    AddOne(Plus(Plus(f, b), k), v5, Num(f) + Num(b) + Num(k));
    PlusIs(z, Plus(Plus(Plus(f, b), k), v5));
    ModSum(Num(f) + Num(b) + Num(k) + Num(v5), Num(z));
    Sum5Is(v5, f, z, k, b);
    NumIsInjective(Accumulate(z, f, b, k, v5), Sum5(v5, f, z, k, b));
  }

  // ----- the macros R0 to R4 ---------------------------------------------------------------
  // Each macro is one round: its first argument plays the part of a, the second of b, and so
  // on, whatever the variables are called at the call.

  method R0(block: array<bv32>, v: bv32, w: bv32, x: bv32, y: bv32, z: bv32, i: nat, ghost p: Plan)
    returns (w1: bv32, z1: bv32)
    requires i < 16 && AtRound(block, p, i, Regs(v, w, x, y, z))
    modifies block
    ensures AtRound(block, p, i + 1, Regs(z1, v, w1, x, y))
  {
    var b := Blk0(block, i, p.raw, p.ws);
    z1 := Accumulate(z, Choose(w, x, y), b, 0x5A827999, Rotl5(v));
    w1 := Rotl30(w);
    assert Stepped(p.run, p.ws, i);
    ChooseIsCh(w, x, y);
    AccumulateIsSum(z, Choose(w, x, y), b, 0x5A827999, Rotl5(v));
  }

  method R1(block: array<bv32>, v: bv32, w: bv32, x: bv32, y: bv32, z: bv32, i: nat, ghost p: Plan)
    returns (w1: bv32, z1: bv32)
    requires 16 <= i < 20 && AtRound(block, p, i, Regs(v, w, x, y, z))
    modifies block
    ensures AtRound(block, p, i + 1, Regs(z1, v, w1, x, y))
  {
    assert Expanded(p.ws, i);
    var b := Blk(block, i, p.raw, p.ws);
    z1 := Accumulate(z, Choose(w, x, y), b, 0x5A827999, Rotl5(v));
    w1 := Rotl30(w);
    assert Stepped(p.run, p.ws, i);
    ChooseIsCh(w, x, y);
    AccumulateIsSum(z, Choose(w, x, y), b, 0x5A827999, Rotl5(v));
  }

  method R2(block: array<bv32>, v: bv32, w: bv32, x: bv32, y: bv32, z: bv32, i: nat, ghost p: Plan)
    returns (w1: bv32, z1: bv32)
    requires 20 <= i < 40 && AtRound(block, p, i, Regs(v, w, x, y, z))
    modifies block
    ensures AtRound(block, p, i + 1, Regs(z1, v, w1, x, y))
  {
    assert Expanded(p.ws, i);
    var b := Blk(block, i, p.raw, p.ws);
    z1 := Accumulate(z, Odd(w, x, y), b, 0x6ED9EBA1, Rotl5(v));
    w1 := Rotl30(w);
    assert Stepped(p.run, p.ws, i);
    AccumulateIsSum(z, Odd(w, x, y), b, 0x6ED9EBA1, Rotl5(v));
  }

  method R3(block: array<bv32>, v: bv32, w: bv32, x: bv32, y: bv32, z: bv32, i: nat, ghost p: Plan)
    returns (w1: bv32, z1: bv32)
    requires 40 <= i < 60 && AtRound(block, p, i, Regs(v, w, x, y, z))
    modifies block
    ensures AtRound(block, p, i + 1, Regs(z1, v, w1, x, y))
  {
    assert Expanded(p.ws, i);
    var b := Blk(block, i, p.raw, p.ws);
    z1 := Accumulate(z, Most(w, x, y), b, 0x8F1BBCDC, Rotl5(v));
    w1 := Rotl30(w);
    assert Stepped(p.run, p.ws, i);
    MostIsMaj(w, x, y);
    AccumulateIsSum(z, Most(w, x, y), b, 0x8F1BBCDC, Rotl5(v));
  }

  method R4(block: array<bv32>, v: bv32, w: bv32, x: bv32, y: bv32, z: bv32, i: nat, ghost p: Plan)
    returns (w1: bv32, z1: bv32)
    requires 60 <= i < 80 && AtRound(block, p, i, Regs(v, w, x, y, z))
    modifies block
    ensures AtRound(block, p, i + 1, Regs(z1, v, w1, x, y))
  {
    assert Expanded(p.ws, i);
    var b := Blk(block, i, p.raw, p.ws);
    z1 := Accumulate(z, Odd(w, x, y), b, 0xCA62C1D6, Rotl5(v));
    w1 := Rotl30(w);
    assert Stepped(p.run, p.ws, i);
    AccumulateIsSum(z, Odd(w, x, y), b, 0xCA62C1D6, Rotl5(v));
  }

  /** The first 10 of the 80 unrolled operations; the others follow in the same way. */
  method Rounds00(block: array<bv32>, h: Regs, ghost p: Plan) returns (r: Regs)
    requires AtRound(block, p, 0, h)
    modifies block
    ensures AtRound(block, p, 10, r)
  {
    hide *;
    var a, b, c, d, e := h.a, h.b, h.c, h.d, h.e;
    b, e := R0(block, a, b, c, d, e, 0, p);
    a, d := R0(block, e, a, b, c, d, 1, p);
    e, c := R0(block, d, e, a, b, c, 2, p);
    d, b := R0(block, c, d, e, a, b, 3, p);
    c, a := R0(block, b, c, d, e, a, 4, p);
    b, e := R0(block, a, b, c, d, e, 5, p);
    a, d := R0(block, e, a, b, c, d, 6, p);
    e, c := R0(block, d, e, a, b, c, 7, p);
    d, b := R0(block, c, d, e, a, b, 8, p);
    c, a := R0(block, b, c, d, e, a, 9, p);
    r := Regs(a, b, c, d, e);
  }

  method Rounds10(block: array<bv32>, h: Regs, ghost p: Plan) returns (r: Regs)
    requires AtRound(block, p, 10, h)
    modifies block
    ensures AtRound(block, p, 20, r)
  {
    hide *;
    var a, b, c, d, e := h.a, h.b, h.c, h.d, h.e;
    b, e := R0(block, a, b, c, d, e, 10, p);
    a, d := R0(block, e, a, b, c, d, 11, p);
    e, c := R0(block, d, e, a, b, c, 12, p);
    d, b := R0(block, c, d, e, a, b, 13, p);
    c, a := R0(block, b, c, d, e, a, 14, p);
    b, e := R0(block, a, b, c, d, e, 15, p);
    a, d := R1(block, e, a, b, c, d, 16, p);
    e, c := R1(block, d, e, a, b, c, 17, p);
    d, b := R1(block, c, d, e, a, b, 18, p);
    c, a := R1(block, b, c, d, e, a, 19, p);
    r := Regs(a, b, c, d, e);
  }

  method Rounds20(block: array<bv32>, h: Regs, ghost p: Plan) returns (r: Regs)
    requires AtRound(block, p, 20, h)
    modifies block
    ensures AtRound(block, p, 30, r)
  {
    hide *;
    var a, b, c, d, e := h.a, h.b, h.c, h.d, h.e;
    b, e := R2(block, a, b, c, d, e, 20, p);
    a, d := R2(block, e, a, b, c, d, 21, p);
    e, c := R2(block, d, e, a, b, c, 22, p);
    d, b := R2(block, c, d, e, a, b, 23, p);
    c, a := R2(block, b, c, d, e, a, 24, p);
    b, e := R2(block, a, b, c, d, e, 25, p);
    a, d := R2(block, e, a, b, c, d, 26, p);
    e, c := R2(block, d, e, a, b, c, 27, p);
    d, b := R2(block, c, d, e, a, b, 28, p);
    c, a := R2(block, b, c, d, e, a, 29, p);
    r := Regs(a, b, c, d, e);
  }

  method Rounds30(block: array<bv32>, h: Regs, ghost p: Plan) returns (r: Regs)
    requires AtRound(block, p, 30, h)
    modifies block
    ensures AtRound(block, p, 40, r)
  {
    hide *;
    var a, b, c, d, e := h.a, h.b, h.c, h.d, h.e;
    b, e := R2(block, a, b, c, d, e, 30, p);
    a, d := R2(block, e, a, b, c, d, 31, p);
    e, c := R2(block, d, e, a, b, c, 32, p);
    d, b := R2(block, c, d, e, a, b, 33, p);
    c, a := R2(block, b, c, d, e, a, 34, p);
    b, e := R2(block, a, b, c, d, e, 35, p);
    a, d := R2(block, e, a, b, c, d, 36, p);
    e, c := R2(block, d, e, a, b, c, 37, p);
    d, b := R2(block, c, d, e, a, b, 38, p);
    c, a := R2(block, b, c, d, e, a, 39, p);
    r := Regs(a, b, c, d, e);
  }

  method Rounds40(block: array<bv32>, h: Regs, ghost p: Plan) returns (r: Regs)
    requires AtRound(block, p, 40, h)
    modifies block
    ensures AtRound(block, p, 50, r)
  {
    hide *;
    var a, b, c, d, e := h.a, h.b, h.c, h.d, h.e;
    b, e := R3(block, a, b, c, d, e, 40, p);
    a, d := R3(block, e, a, b, c, d, 41, p);
    e, c := R3(block, d, e, a, b, c, 42, p);
    d, b := R3(block, c, d, e, a, b, 43, p);
    c, a := R3(block, b, c, d, e, a, 44, p);
    b, e := R3(block, a, b, c, d, e, 45, p);
    a, d := R3(block, e, a, b, c, d, 46, p);
    e, c := R3(block, d, e, a, b, c, 47, p);
    d, b := R3(block, c, d, e, a, b, 48, p);
    c, a := R3(block, b, c, d, e, a, 49, p);
    r := Regs(a, b, c, d, e);
  }

  method Rounds50(block: array<bv32>, h: Regs, ghost p: Plan) returns (r: Regs)
    requires AtRound(block, p, 50, h)
    modifies block
    ensures AtRound(block, p, 60, r)
  {
    hide *;
    var a, b, c, d, e := h.a, h.b, h.c, h.d, h.e;
    b, e := R3(block, a, b, c, d, e, 50, p);
    a, d := R3(block, e, a, b, c, d, 51, p);
    e, c := R3(block, d, e, a, b, c, 52, p);
    d, b := R3(block, c, d, e, a, b, 53, p);
    c, a := R3(block, b, c, d, e, a, 54, p);
    b, e := R3(block, a, b, c, d, e, 55, p);
    a, d := R3(block, e, a, b, c, d, 56, p);
    e, c := R3(block, d, e, a, b, c, 57, p);
    d, b := R3(block, c, d, e, a, b, 58, p);
    c, a := R3(block, b, c, d, e, a, 59, p);
    r := Regs(a, b, c, d, e);
  }

  method Rounds60(block: array<bv32>, h: Regs, ghost p: Plan) returns (r: Regs)
    requires AtRound(block, p, 60, h)
    modifies block
    ensures AtRound(block, p, 70, r)
  {
    hide *;
    var a, b, c, d, e := h.a, h.b, h.c, h.d, h.e;
    b, e := R4(block, a, b, c, d, e, 60, p);
    a, d := R4(block, e, a, b, c, d, 61, p);
    e, c := R4(block, d, e, a, b, c, 62, p);
    d, b := R4(block, c, d, e, a, b, 63, p);
    c, a := R4(block, b, c, d, e, a, 64, p);
    b, e := R4(block, a, b, c, d, e, 65, p);
    a, d := R4(block, e, a, b, c, d, 66, p);
    e, c := R4(block, d, e, a, b, c, 67, p);
    d, b := R4(block, c, d, e, a, b, 68, p);
    c, a := R4(block, b, c, d, e, a, 69, p);
    r := Regs(a, b, c, d, e);
  }

  method Rounds70(block: array<bv32>, h: Regs, ghost p: Plan) returns (r: Regs)
    requires AtRound(block, p, 70, h)
    modifies block
    ensures AtRound(block, p, 80, r)
  {
    hide *;
    var a, b, c, d, e := h.a, h.b, h.c, h.d, h.e;
    b, e := R4(block, a, b, c, d, e, 70, p);
    a, d := R4(block, e, a, b, c, d, 71, p);
    e, c := R4(block, d, e, a, b, c, 72, p);
    d, b := R4(block, c, d, e, a, b, 73, p);
    c, a := R4(block, b, c, d, e, a, 74, p);
    b, e := R4(block, a, b, c, d, e, 75, p);
    a, d := R4(block, e, a, b, c, d, 76, p);
    e, c := R4(block, d, e, a, b, c, 77, p);
    d, b := R4(block, c, d, e, a, b, 78, p);
    c, a := R4(block, b, c, d, e, a, 79, p);
    r := Regs(a, b, c, d, e);
  }

  // ----- one block -------------------------------------------------------------------------

  /** A state array as the five words it holds. */
  function Loaded(state: Words): Regs
    requires |state| == 5
  {
    Regs(state[0], state[1], state[2], state[3], state[4])
  }

  ghost function PlanFor(h: Regs, bytes: Bytes): (p: Plan)
    requires |bytes| == 64
    ensures IsPlan(p) && p.run[0] == h
    ensures forall j :: 0 <= j < 16 ==>
      p.raw[j] == LoadLittle(bytes[4 * j], bytes[4 * j + 1], bytes[4 * j + 2], bytes[4 * j + 3])
    ensures p.run[80] == Rounds(h, Schedule(BlockWords(bytes), 80), 80)
  {
    var ws := Schedule(BlockWords(bytes), 80);
    var raw := seq(16, j requires 0 <= j < 16 =>
      LoadLittle(bytes[4 * j], bytes[4 * j + 1], bytes[4 * j + 2], bytes[4 * j + 3]));
    assert IsSchedule(ws) && IsRun(RunOf(h, ws, 80), ws) by {
      ScheduleIsSchedule(BlockWords(bytes), 80);
      RunOfIsRun(h, ws);
    }
    assert forall i :: 0 <= i < 16 ==> Swap(raw[i]) == ws[i] by {
      ScheduleIsSchedule(BlockWords(bytes), 80);
      LoadedWords(bytes, raw, ws);
    }
    Plan(raw, ws, RunOf(h, ws, 80))
  }

  lemma LoadedWords(bytes: Bytes, raw: Words, ws: Words)
    requires |bytes| == 64 && |raw| == 16 && |ws| == 80 && ws[..16] == BlockWords(bytes)
    requires forall j :: 0 <= j < 16 ==>
      raw[j] == LoadLittle(bytes[4 * j], bytes[4 * j + 1], bytes[4 * j + 2], bytes[4 * j + 3])
    ensures forall i :: 0 <= i < 16 ==> Swap(raw[i]) == ws[i]
  {
    forall i | 0 <= i < 16
      ensures Swap(raw[i]) == ws[i]
    {
      SwapLoads(bytes[4 * i], bytes[4 * i + 1], bytes[4 * i + 2], bytes[4 * i + 3]);
      assert ws[..16][i] == ws[i];
    }
  }

  method AddInto(state: array<bv32>, r: Regs)
    requires state.Length == 5
    modifies state
    ensures Loaded(state[..]) == AddRegs(Loaded(old(state[..])), r)
  {
    state[0] := Plus(state[0], r.a);
    state[1] := Plus(state[1], r.b);
    state[2] := Plus(state[2], r.c);
    state[3] := Plus(state[3], r.d);
    state[4] := Plus(state[4], r.e);
  }

  /** One 512-bit block is compressed into the state, in place. */
  method Transform(state: array<bv32>, bytes: Bytes)
    requires state.Length == 5 && |bytes| == 64
    modifies state
    ensures Loaded(state[..]) == Compress(Loaded(old(state[..])), BlockWords(bytes))
  {
    var block := new bv32[16](j requires 0 <= j < 16 =>
      LoadLittle(bytes[4 * j], bytes[4 * j + 1], bytes[4 * j + 2], bytes[4 * j + 3]));
    var h := Regs(state[0], state[1], state[2], state[3], state[4]);
    ghost var p := PlanFor(h, bytes);
    assert AtRound(block, p, 0, h);
    var r := Rounds00(block, h, p);
    r := Rounds10(block, r, p);
    r := Rounds20(block, r, p);
    r := Rounds30(block, r, p);
    r := Rounds40(block, r, p);
    r := Rounds50(block, r, p);
    r := Rounds60(block, r, p);
    r := Rounds70(block, r, p);
    AddInto(state, r);
  }
}
