/**
  * MiMC over a prime-order field: the keyed TypeScript permutation and sponge, the Rust port
  * specialised to key 0, and the proofs that the permutation is invertible and that the two
  * languages compute the same hash. The modulus and the round constants are parameters;
  * the number of rounds is the length of the constant table.
  */
module Mimc {
  import opened Field
  import opened Results
  import opened Merkle

  type Table = seq<int>
  type State = (int, int)

  predicate Residues(r: Modulus, x: State) {
    Residue(r, x.0) && Residue(r, x.1)
  }

  /** The S-box by three modular products. */
  function Pow5(r: Modulus, t: int): (y: int)
    ensures Residue(r, y)
  {
    var t2 := (t * t) % r;
    var t4 := (t2 * t2) % r;
    (t4 * t) % r
  }

  /** The S-box really is the fifth power. */
  lemma Pow5Correct(r: Modulus, t: int)
    ensures Pow5(r, t) == (t * t * t * t * t) % r
  {
    var t2 := (t * t) % r;
    var s := t * t;
    MulMod(r, s, t2);
    MulMod(r, s, s);
    assert (t2 * t2) % r == (s * s) % r by {
      assert t2 * s == s * t2;
    }
    MulMod(r, t2 * t2, t);
    MulMod(r, s * s, t);
    assert s * s * t == t * t * t * t * t;
  }

  // ---- The permutation of lib/pool/mimc.ts ----

  function RoundInput(r: Modulus, c: Table, key: int, i: nat, xL: int): int
    requires i < |c|
  {
    if i == 0 then (key + xL) % r else (key + xL + c[i]) % r
  }

  /** A round without its S-box: add `t5` to the right half, then swap unless it is the last. */
  function Mix(r: Modulus, last: bool, x: State, t5: int): State {
    if last then (x.0, FrAdd(r, x.1, t5)) else (FrAdd(r, x.1, t5), x.0)
  }

  /** Every round swaps the halves except the last. */
  function Round(r: Modulus, c: Table, key: int, i: nat, x: State): State
    requires i < |c|
  {
    Mix(r, i == |c| - 1, x, Pow5(r, RoundInput(r, c, key, i, x.0)))
  }

  function Rounds(r: Modulus, c: Table, key: int, n: nat, x: State): State
    requires n <= |c|
  {
    if n == 0 then x else Round(r, c, key, n - 1, Rounds(r, c, key, n - 1, x))
  }

  function Feistel(r: Modulus, c: Table, key: int, x: State): State {
    Rounds(r, c, key, |c|, x)
  }

  lemma FifthPowerMod(r: Modulus, t: int)
    ensures Pow5(r, t % r) == (t * t * t * t * t) % r
  {
    Pow5Correct(r, t);
    var m := t % r;
    var t2 := (m * m) % r;
    MulMod(r, t, m);
    MulMod(r, t, t);
    assert t * m == m * t;
    assert t2 == (t * t) % r;
    var t4 := (t2 * t2) % r;
    MulMod(r, t, t4);
    assert t * t4 == t4 * t && m * t4 == t4 * m;
  }

  /**
    * A round in integers: the fifth power of key, left half and constant is added to the right
    * half, and the halves change places unless it is the last. The first constant is not used.
    */
  lemma RoundIsFifthPower(r: Modulus, c: Table, key: int, i: nat, x: State)
    requires i < |c|
    ensures var t := key + x.0 + if i == 0 then 0 else c[i];
            var sum := (x.1 + t * t * t * t * t) % r;
            && (i == |c| - 1 ==> Round(r, c, key, i, x) == (x.0, sum))
            && (i < |c| - 1 ==> Round(r, c, key, i, x) == (sum, x.0))
            && Rounds(r, c, key, 0, x) == x
            && Rounds(r, c, key, i + 1, x) == Round(r, c, key, i, Rounds(r, c, key, i, x))
  {
    var t := key + x.0 + if i == 0 then 0 else c[i];
    FifthPowerMod(r, t);
    AddMod(r, x.1, t * t * t * t * t);
    hide Pow5;
  }

  method MimcFeistel(r: Modulus, c: Table, xLin: int, xRin: int, k: int) returns (xL: int, xR: int)
    ensures (xL, xR) == Feistel(r, c, k % r, (xLin % r, xRin % r))
  {
    xL := ToField(r, xLin);
    xR := ToField(r, xRin);
    var key := ToField(r, k);
    for i := 0 to |c|
      invariant (xL, xR) == Rounds(r, c, key, i, (xLin % r, xRin % r))
    {
      var t := if i == 0 then (key + xL) % r else (key + xL + c[i]) % r;
      var t5 := Pow5(r, t);
      if i < |c| - 1 {
        var newXL := (xR + t5) % r;
        xR := xL;
        xL := newXL;
      } else {
        xR := (xR + t5) % r;
      }
    }
  }

  // ---- The permutation is a bijection ----

  function Unround(r: Modulus, c: Table, key: int, i: nat, y: State): State
    requires i < |c|
  {
    var last := i == |c| - 1;
    Unmix(r, last, y, Pow5(r, RoundInput(r, c, key, i, if last then y.0 else y.1)))
  }

  /** Undo the first `n` rounds, the last of them first. */
  function Unrounds(r: Modulus, c: Table, key: int, n: nat, y: State): State
    requires n <= |c|
  {
    if n == 0 then y else Unrounds(r, c, key, n - 1, Unround(r, c, key, n - 1, y))
  }

  function Unfeistel(r: Modulus, c: Table, key: int, y: State): State {
    Unrounds(r, c, key, |c|, y)
  }

  function Unmix(r: Modulus, last: bool, y: State, t5: int): State {
    if last then (y.0, FrSub(r, y.1, t5)) else (y.1, FrSub(r, y.0, t5))
  }

  lemma MixInverts(r: Modulus, last: bool, x: State, t5: int)
    requires Residues(r, x)
    ensures Residues(r, Mix(r, last, x, t5)) && Unmix(r, last, Mix(r, last, x, t5), t5) == x
    ensures Residues(r, Unmix(r, last, x, t5)) && Mix(r, last, Unmix(r, last, x, t5), t5) == x
  {
    hide FrAdd, FrSub;
    AddSub(r, x.0, t5);
    AddSub(r, x.1, t5);
  }

  /** The half that feeds the S-box is the same before and after a round. */
  lemma RoundInverts(r: Modulus, c: Table, key: int, i: nat, x: State)
    requires i < |c| && Residues(r, x)
    ensures Residues(r, Round(r, c, key, i, x)) && Unround(r, c, key, i, Round(r, c, key, i, x)) == x
    ensures Residues(r, Unround(r, c, key, i, x)) && Round(r, c, key, i, Unround(r, c, key, i, x)) == x
  {
    hide Pow5, RoundInput, FrAdd, FrSub;
    var last := i == |c| - 1;
    MixInverts(r, last, x, Pow5(r, RoundInput(r, c, key, i, x.0)));
    MixInverts(r, last, x, Pow5(r, RoundInput(r, c, key, i, if last then x.0 else x.1)));
  }

  lemma {:induction false} RoundsInvert(r: Modulus, c: Table, key: int, n: nat, x: State)
    requires n <= |c| && Residues(r, x)
    ensures Residues(r, Rounds(r, c, key, n, x)) && Unrounds(r, c, key, n, Rounds(r, c, key, n, x)) == x
    ensures Residues(r, Unrounds(r, c, key, n, x)) && Rounds(r, c, key, n, Unrounds(r, c, key, n, x)) == x
  {
    hide Round, Unround;
    if n > 0 {
      RoundsInvert(r, c, key, n - 1, x);
      RoundInverts(r, c, key, n - 1, Rounds(r, c, key, n - 1, x));
      RoundInverts(r, c, key, n - 1, x);
      RoundsInvert(r, c, key, n - 1, Unround(r, c, key, n - 1, x));
    }
  }

  /** Bijection on pairs of residues, for every key, constant table and number of rounds. */
  lemma FeistelBijective(r: Modulus, c: Table, key: int, x: State)
    requires Residues(r, x)
    ensures Residues(r, Feistel(r, c, key, x)) && Unfeistel(r, c, key, Feistel(r, c, key, x)) == x
    ensures Residues(r, Unfeistel(r, c, key, x)) && Feistel(r, c, key, Unfeistel(r, c, key, x)) == x
  {
    RoundsInvert(r, c, key, |c|, x);
  }

  // ---- The sponge of lib/pool/mimc.ts ----

  /** State after absorbing the first `n` inputs. */
  function Absorb(r: Modulus, c: Table, key: int, inputs: seq<int>, n: nat): State
    requires 1 <= n <= |inputs|
  {
    if n == 1 then Feistel(r, c, key, (inputs[0] % r, 0))
    else
      var s := Absorb(r, c, key, inputs, n - 1);
      Feistel(r, c, key, ((s.0 + inputs[n - 1] % r) % r, s.1))
  }

  /** The `j`-th squeezed state. */
  function Squeeze(r: Modulus, c: Table, key: int, s: State, j: nat): State {
    if j == 0 then s else Feistel(r, c, key, Squeeze(r, c, key, s, j - 1))
  }

  lemma {:induction false} AbsorbResidues(r: Modulus, c: Table, key: int, inputs: seq<int>, n: nat)
    requires 1 <= n <= |inputs|
    ensures Residues(r, Absorb(r, c, key, inputs, n))
  {
    if n == 1 {
      FeistelBijective(r, c, key, (inputs[0] % r, 0));
    } else {
      AbsorbResidues(r, c, key, inputs, n - 1);
      var s := Absorb(r, c, key, inputs, n - 1);
      FeistelBijective(r, c, key, ((s.0 + inputs[n - 1] % r) % r, s.1));
    }
  }

  /** Two input lists that differ in one residue only lead to different states, whatever follows. */
  lemma {:induction false} AbsorbDiffers(r: Modulus, c: Table, key: int, xs: seq<int>, ys: seq<int>, i: nat, n: nat)
    requires i < n <= |xs| == |ys| && xs[i] % r != ys[i] % r
    requires forall j | 0 <= j < n && j != i :: xs[j] % r == ys[j] % r
    ensures Absorb(r, c, key, xs, n) != Absorb(r, c, key, ys, n)
  {
    hide Feistel;
    var s, t := (0, 0), (0, 0);
    if n > 1 {
      s, t := Absorb(r, c, key, xs, n - 1), Absorb(r, c, key, ys, n - 1);
      AbsorbResidues(r, c, key, xs, n - 1);
      AbsorbResidues(r, c, key, ys, n - 1);
      if i < n - 1 {
        AbsorbDiffers(r, c, key, xs, ys, i, n - 1);
      } else {
        HashOfResidues(r, c, key, xs, ys, n - 1);
      }
    }
    var a, b := xs[n - 1] % r, ys[n - 1] % r;
    AddInjective(r, s.0, t.0, a);
    AddInjective(r, a, b, s.0);
    ResidueMod(r, a);
    ResidueMod(r, b);
    FeistelBijective(r, c, key, ((s.0 + a) % r, s.1));
    FeistelBijective(r, c, key, ((t.0 + b) % r, t.1));
  }

  /** Adding the same residue keeps different residues apart. */
  lemma AddInjective(r: Modulus, x: int, y: int, d: int)
    requires Residue(r, x) && Residue(r, y)
    ensures (x + d) % r == (y + d) % r <==> x == y
  {
    AddSub(r, x, d);
    AddSub(r, y, d);
  }

  /** The absorbing half of `mimcSponge`. */
  method AbsorbAll(r: Modulus, c: Table, inputs: seq<int>, key: int) returns (xL: int, xR: int)
    requires inputs != [] && Residue(r, key)
    ensures (xL, xR) == Absorb(r, c, key, inputs, |inputs|)
  {
    hide Feistel;
    ResidueMod(r, key);
    xL, xR := ToField(r, inputs[0]), 0;
    FeistelOnResidues(r, xL, xR);
    xL, xR := MimcFeistel(r, c, xL, xR, key);
    for i := 1 to |inputs|
      invariant (xL, xR) == Absorb(r, c, key, inputs, i)
    {
      AbsorbResidues(r, c, key, inputs, i);
      xL := (xL + ToField(r, inputs[i])) % r;
      FeistelOnResidues(r, xL, xR);
      xL, xR := MimcFeistel(r, c, xL, xR, key);
    }
  }

  /** Each squeezed state is the one before it permuted, which the inverse permutation gives back. */
  lemma SqueezeUndone(r: Modulus, c: Table, key: int, s: State, j: nat)
    requires Residues(r, s)
    ensures Squeeze(r, c, key, s, 0) == s
    ensures Residues(r, Squeeze(r, c, key, s, j))
    ensures Unfeistel(r, c, key, Squeeze(r, c, key, s, j + 1)) == Squeeze(r, c, key, s, j)
  {
    hide Feistel, Unfeistel;
    if j > 0 {
      SqueezeUndone(r, c, key, s, j - 1);
      FeistelBijective(r, c, key, Squeeze(r, c, key, s, j - 1));
    }
    FeistelBijective(r, c, key, Squeeze(r, c, key, s, j));
  }

  /** The squeezing half: at least one output is always produced. */
  method SqueezeOut(r: Modulus, c: Table, s: State, nOutputs: nat, key: int) returns (outs: seq<int>)
    requires Residues(r, s) && Residue(r, key)
    ensures |outs| == if nOutputs == 0 then 1 else nOutputs
    ensures forall j | 0 <= j < |outs| :: outs[j] == Squeeze(r, c, key, s, j).0
  {
    hide Feistel;
    ResidueMod(r, key);
    var (xL, xR) := s;
    outs := [xL];
    while |outs| < nOutputs
      invariant 1 <= |outs| && (nOutputs == 0 || |outs| <= nOutputs) && (nOutputs == 0 ==> |outs| == 1)
      invariant (xL, xR) == Squeeze(r, c, key, s, |outs| - 1) && Residues(r, (xL, xR))
      invariant forall j | 0 <= j < |outs| :: outs[j] == Squeeze(r, c, key, s, j).0
    {
      FeistelOnResidues(r, xL, xR);
      FeistelBijective(r, c, key, (xL, xR));
      xL, xR := MimcFeistel(r, c, xL, xR, key);
      outs := outs + [xL];
    }
  }

  /** Absorb all inputs, squeeze `nOutputs` elements; no input is an error. */
  method MimcSponge(r: Modulus, c: Table, inputs: seq<int>, nOutputs: nat, k: int) returns (outs: Option<seq<int>>)
    ensures outs.None? <==> inputs == []
    ensures outs.Some? ==> |outs.value| == if nOutputs == 0 then 1 else nOutputs
    ensures outs.Some? ==> forall j | 0 <= j < |outs.value| ::
                outs.value[j] == Squeeze(r, c, k % r, Absorb(r, c, k % r, inputs, |inputs|), j).0
  {
    if |inputs| == 0 {
      return None;
    }
    var key := ToField(r, k);
    var xL, xR := AbsorbAll(r, c, inputs, key);
    AbsorbResidues(r, c, key, inputs, |inputs|);
    var squeezed := SqueezeOut(r, c, (xL, xR), nOutputs, key);
    return Some(squeezed);
  }

  /** Normalising residues changes nothing. */
  lemma FeistelOnResidues(r: Modulus, xL: int, xR: int)
    requires Residues(r, (xL, xR))
    ensures xL % r == xL && xR % r == xR
  {
    ResidueMod(r, xL);
    ResidueMod(r, xR);
  }

  /** `mimcSponge(inputs, 1, 0)[0]`: the hash used for nodes, commitments and nullifiers. */
  function Hash(r: Modulus, c: Table, inputs: seq<int>): int
    requires inputs != []
  {
    Absorb(r, c, 0, inputs, |inputs|).0
  }

  // ---- The port of zk/verifier/src/mimc.rs ----

  function FrPow5(r: Modulus, t: int): int {
    var t2 := FrMul(r, t, t);
    var t4 := FrMul(r, t2, t2);
    FrMul(r, t4, t)
  }

  /** One unkeyed round; the first round adds no constant. */
  function FrRound(r: Modulus, c: Table, i: nat, x: State): State
    requires i < |c|
  {
    var t5 := FrPow5(r, if i == 0 then x.0 else FrAdd(r, x.0, c[i]));
    if i < |c| - 1 then (FrAdd(r, x.1, t5), x.0) else (x.0, FrAdd(r, x.1, t5))
  }

  function FrRounds(r: Modulus, c: Table, n: nat, x: State): State
    requires n <= |c|
  {
    if n == 0 then x else FrRound(r, c, n - 1, FrRounds(r, c, n - 1, x))
  }

  function FrAbsorb(r: Modulus, c: Table, inputs: seq<int>, n: nat): State
    requires 1 <= n <= |inputs|
  {
    if n == 1 then FrRounds(r, c, |c|, (inputs[0], 0))
    else
      var s := FrAbsorb(r, c, inputs, n - 1);
      FrRounds(r, c, |c|, (FrAdd(r, s.0, inputs[n - 1]), s.1))
  }

  function FrHash(r: Modulus, c: Table, inputs: seq<int>): int
    requires inputs != []
  {
    FrAbsorb(r, c, inputs, |inputs|).0
  }

  method FrFeistel(r: Modulus, c: Table, xlIn: int, xrIn: int) returns (xl: int, xr: int)
    ensures (xl, xr) == FrRounds(r, c, |c|, (xlIn, xrIn))
  {
    xl, xr := xlIn, xrIn;
    for i := 0 to |c|
      invariant (xl, xr) == FrRounds(r, c, i, (xlIn, xrIn))
    {
      var t := if i == 0 then xl else FrAdd(r, xl, c[i]);
      var t5 := FrPow5(r, t);
      if i < |c| - 1 {
        var newXl := FrAdd(r, xr, t5);
        xr := xl;
        xl := newXl;
      } else {
        xr := FrAdd(r, xr, t5);
      }
    }
  }

  /** `sponge_with`; an empty input list panics. */
  method SpongeWith(r: Modulus, c: Table, inputs: seq<int>) returns (out: Option<int>)
    ensures out == if inputs == [] then None else Some(FrHash(r, c, inputs))
  {
    if |inputs| == 0 {
      return None;
    }
    var xl, xr := FrFeistel(r, c, inputs[0], 0);
    for i := 1 to |inputs|
      invariant (xl, xr) == FrAbsorb(r, c, inputs, i)
    {
      xl := FrAdd(r, xl, inputs[i]);
      xl, xr := FrFeistel(r, c, xl, xr);
    }
    return Some(xl);
  }

  // ---- The two languages agree ----

  /** With key 0 the first round's input is the left half itself, as the port writes it. */
  lemma RoundAgrees(r: Modulus, c: Table, i: nat, x: State)
    requires i < |c| && Residues(r, x)
    ensures FrRound(r, c, i, x) == Round(r, c, 0, i, x)
  {
    ResidueMod(r, x.0);
    var t := RoundInput(r, c, 0, i, x.0);
    assert t == if i == 0 then x.0 else FrAdd(r, x.0, c[i]);
    assert FrPow5(r, t) == Pow5(r, t);
    hide FrPow5, Pow5, RoundInput, FrAdd;
  }

  lemma {:induction false} RoundsAgree(r: Modulus, c: Table, n: nat, x: State)
    requires n <= |c| && Residues(r, x)
    ensures FrRounds(r, c, n, x) == Rounds(r, c, 0, n, x)
  {
    hide FrRound, Round;
    if n > 0 {
      RoundsAgree(r, c, n - 1, x);
      RoundsInvert(r, c, 0, n - 1, x);
      RoundAgrees(r, c, n - 1, Rounds(r, c, 0, n - 1, x));
    }
  }

  lemma {:induction false} AbsorbAgrees(r: Modulus, c: Table, inputs: seq<int>, n: nat)
    requires 1 <= n <= |inputs|
    requires forall x <- inputs :: Residue(r, x)
    ensures FrAbsorb(r, c, inputs, n) == Absorb(r, c, 0, inputs, n)
  {
    ResidueMod(r, inputs[n - 1]);
    if n == 1 {
      RoundsAgree(r, c, |c|, (inputs[0], 0));
    } else {
      AbsorbAgrees(r, c, inputs, n - 1);
      AbsorbResidues(r, c, 0, inputs, n - 1);
      var s := Absorb(r, c, 0, inputs, n - 1);
      RoundsAgree(r, c, |c|, (FrAdd(r, s.0, inputs[n - 1]), s.1));
    }
  }

  /** For input lists of every length, the Rust hash of residues is the TypeScript hash. */
  lemma HashesAgree(r: Modulus, c: Table, inputs: seq<int>)
    requires inputs != []
    requires forall x <- inputs :: Residue(r, x)
    ensures FrHash(r, c, inputs) == Hash(r, c, inputs) && Residue(r, Hash(r, c, inputs))
  {
    AbsorbAgrees(r, c, inputs, |inputs|);
    AbsorbResidues(r, c, 0, inputs, |inputs|);
  }

  /** The TypeScript hash sees its inputs only as residues. */
  lemma {:induction false} HashOfResidues(r: Modulus, c: Table, key: int, xs: seq<int>, ys: seq<int>, n: nat)
    requires 1 <= n <= |xs| == |ys|
    requires forall i | 0 <= i < n :: xs[i] % r == ys[i] % r
    ensures Absorb(r, c, key, xs, n) == Absorb(r, c, key, ys, n)
  {
    if n > 1 {
      HashOfResidues(r, c, key, xs, ys, n - 1);
    }
  }

  // ---- Node hash, commitment and nullifier hash ----

  function NodeHash(r: Modulus, c: Table): PairHash {
    (a, b) => Hash(r, c, [a, b])
  }

  function FrNodeHash(r: Modulus, c: Table): PairHash {
    (a, b) => FrHash(r, c, [a, b])
  }

  function Commitment(r: Modulus, c: Table, secret: int, nullifier: int, amount: int): int {
    Hash(r, c, [secret, nullifier, amount])
  }

  function NullifierHash(r: Modulus, c: Table, nullifier: int): int {
    Hash(r, c, [nullifier])
  }

  /**
    * What each hash absorbs, in order, and what it answers: every input's residue is added to the
    * left half, the whole state permuted, and the last left half is the hash.
    */
  lemma HashesAbsorb(r: Modulus, c: Table, x: int, y: int, z: int)
    ensures var one := Feistel(r, c, 0, (x % r, 0));
            var two := Feistel(r, c, 0, ((one.0 + y % r) % r, one.1));
            var three := Feistel(r, c, 0, ((two.0 + z % r) % r, two.1));
            && Residues(r, one) && Residues(r, two) && Residues(r, three)
            && NullifierHash(r, c, x) == one.0 && NodeHash(r, c)(x, y) == two.0 && Commitment(r, c, x, y, z) == three.0
  {
    AbsorbResidues(r, c, 0, [x], 1);
    AbsorbResidues(r, c, 0, [x, y], 2);
    AbsorbResidues(r, c, 0, [x, y, z], 3);
    AbsorbNext(r, c, [x, y], 1);
    AbsorbNext(r, c, [x, y, z], 1);
    AbsorbNext(r, c, [x, y, z], 2);
    AbsorbFirst(r, c, [x]);
    AbsorbFirst(r, c, [x, y]);
    AbsorbFirst(r, c, [x, y, z]);
    hide Feistel, Absorb;
  }

  lemma AbsorbFirst(r: Modulus, c: Table, inputs: seq<int>)
    requires inputs != []
    ensures Absorb(r, c, 0, inputs, 1) == Feistel(r, c, 0, (inputs[0] % r, 0))
  {
  }

  lemma AbsorbNext(r: Modulus, c: Table, inputs: seq<int>, n: nat)
    requires 1 <= n < |inputs|
    ensures var s := Absorb(r, c, 0, inputs, n);
            Absorb(r, c, 0, inputs, n + 1) == Feistel(r, c, 0, ((s.0 + inputs[n] % r) % r, s.1))
  {
  }

  /**
    * Notes that differ in exactly one of secret, nullifier and amount end in different states; if
    * their commitments are equal all the same, it is the halves not shown that differ.
    */
  lemma CommitmentSeesEach(r: Modulus, c: Table, note: seq<int>, other: seq<int>, i: nat)
    requires i < |note| == |other| == 3 && note[i] % r != other[i] % r
    requires forall j | 0 <= j < 3 && j != i :: note[j] % r == other[j] % r
    ensures var s, t := Absorb(r, c, 0, note, 3), Absorb(r, c, 0, other, 3);
            && s != t && Commitment(r, c, note[0], note[1], note[2]) == s.0
            && Commitment(r, c, other[0], other[1], other[2]) == t.0
  {
    AbsorbDiffers(r, c, 0, note, other, i, 3);
    hide Absorb;
    assert note == [note[0], note[1], note[2]] && other == [other[0], other[1], other[2]];
  }

  // ---- The exported hashes ----

  /** One output of the sponge of lib/pool/mimc.ts. */
  method SpongeOnce(r: Modulus, c: Table, inputs: seq<int>) returns (out: int)
    requires inputs != []
    ensures out == Hash(r, c, inputs)
  {
    ResidueMod(r, 0);
    hide Absorb;
    var outs := MimcSponge(r, c, inputs, 1, 0);
    out := outs.value[0];
  }

  method Hash2(r: Modulus, c: Table, left: int, right: int) returns (out: int)
    ensures out == NodeHash(r, c)(left, right)
  {
    out := SpongeOnce(r, c, [left, right]);
  }

  method CommitmentHash(r: Modulus, c: Table, secret: int, nullifier: int, amount: int) returns (out: int)
    ensures out == Commitment(r, c, secret, nullifier, amount)
  {
    out := SpongeOnce(r, c, [secret, nullifier, amount]);
  }

  method HashOfNullifier(r: Modulus, c: Table, nullifier: int) returns (out: int)
    ensures out == NullifierHash(r, c, nullifier)
  {
    out := SpongeOnce(r, c, [nullifier]);
  }

  /** The port's three hashes of field elements. */
  method PortHash2(r: Modulus, c: Table, left: int, right: int) returns (out: int)
    requires Residue(r, left) && Residue(r, right)
    ensures out == FrNodeHash(r, c)(left, right) == NodeHash(r, c)(left, right)
  {
    HashesAgree(r, c, [left, right]);
    var v := [];
    v := v + [left];
    v := v + [right];
    assert v == [left, right];
    hide FrHash, Hash;
    var answer := SpongeWith(r, c, v);
    out := answer.value;
  }

  method PortCommitment(r: Modulus, c: Table, secret: int, nullifier: int, amount: int) returns (out: int)
    requires Residue(r, secret) && Residue(r, nullifier) && Residue(r, amount)
    ensures out == Commitment(r, c, secret, nullifier, amount)
  {
    HashesAgree(r, c, [secret, nullifier, amount]);
    var v := [];
    v := v + [secret];
    v := v + [nullifier];
    v := v + [amount];
    assert v == [secret, nullifier, amount];
    hide FrHash, Hash;
    var answer := SpongeWith(r, c, v);
    out := answer.value;
  }

  method PortNullifierHash(r: Modulus, c: Table, nullifier: int) returns (out: int)
    requires Residue(r, nullifier)
    ensures out == NullifierHash(r, c, nullifier)
  {
    HashesAgree(r, c, [nullifier]);
    hide FrHash, Hash;
    var answer := SpongeWith(r, c, [nullifier]);
    out := answer.value;
  }

  /** Trees over the same residues are the same tree in both languages, at every node. */
  lemma TreesAgree(r: Modulus, c: Table, leaves: seq<int>, l: nat, j: nat)
    requires forall x <- leaves :: Residue(r, x)
    ensures Node(FrNodeHash(r, c), leaves, l, j) == Node(NodeHash(r, c), leaves, l, j)
  {
    hide Node, Hash, FrHash;
    forall a, b | Residue(r, a) && Residue(r, b)
      ensures FrNodeHash(r, c)(a, b) == NodeHash(r, c)(a, b) && Residue(r, FrNodeHash(r, c)(a, b))
    {
      HashesAgree(r, c, [a, b]);
    }
    SameTree(FrNodeHash(r, c), NodeHash(r, c), r, leaves, l, j);
  }
}
