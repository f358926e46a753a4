/**
 The step-by-step cipher of aes.ts (`class aes_state`, aes_start, aes_step,
 aes_decrypt_step) without its page rendering: a record of flags and
 counters that each call advances by one transformation of the state. The
 six state transformations are parameters (Transforms), so that the trace
 of the flag machine is proved once, for any transformations; module
 StepperAes plugs in the AES ones.
 */
module Stepper {
  import opened State
  import It = Iteration

  /* `const rounds = 10` of aes.ts. */
  const Rounds := 10

  /* The state transformations a step may apply, and their inverses. */
  datatype Transforms = Transforms(
    sub: State -> State, shift: State -> State, mix: State -> State,
    invSub: State -> State, invShift: State -> State, invMix: State -> State)

  /* Each inverse transformation undoes its forward one. */
  ghost predicate Undoes(t: Transforms)
  {
    (forall x: State :: t.invSub(t.sub(x)) == x)
    && (forall x: State :: t.invShift(t.shift(x)) == x)
    && (forall x: State :: t.invMix(t.mix(x)) == x)
  }

  /* `class aes_state` without `prestep_state` and `substep_index`, which
     only the per-column animation reads. */
  datatype Machine = Machine(
    state: State, roundKeys: seq<bv32>,
    firstRoundKey: bool, round: int, roundStep: int,
    lastSub: bool, lastShift: bool, lastRoundKey: bool,
    done: bool, decrypt: bool)

  /* `round_keys.slice(start)` as aes_add_round_key reads it: the four words
     from start on, a negative start counting from the end; a word past the
     end is `undefined`, which `^=` treats as 0. */
  function KeyAt(rk: seq<bv32>, start: int): State
  {
    var from := if start >= 0 then start else if |rk| + start >= 0 then |rk| + start else 0;
    seq(4, i requires 0 <= i < 4 => if from + i < |rk| then rk[from + i] else 0)
  }

  /* Within the expanded key, the slice is the round key of the block cipher;
     past its end, it reads zeros. */
  lemma {:induction false} KeyAtRoundKey(rk: seq<bv32>, start: nat)
    ensures start + 4 <= |rk| ==> KeyAt(rk, start) == rk[start .. start + 4]
    ensures |rk| <= start ==> KeyAt(rk, start) == [0, 0, 0, 0]
  {
  }

  /* aes_step with `decrypt` unset. */
  function EncryptStep(t: Transforms, m: Machine): Machine
  {
    if !m.firstRoundKey then
      m.(state := AddRoundKey(m.state, KeyAt(m.roundKeys, 0)), firstRoundKey := true)
    else if m.round < Rounds then
      if m.roundStep == 0 then m.(state := t.sub(m.state), roundStep := 1)
      else if m.roundStep == 1 then m.(state := t.shift(m.state), roundStep := 2)
      else if m.roundStep == 2 then m.(state := t.mix(m.state), roundStep := 3)
      else if m.roundStep == 3 then
        m.(state := AddRoundKey(m.state, KeyAt(m.roundKeys, m.round * 4)), round := m.round + 1,
           roundStep := if m.round + 1 < Rounds then 0 else 3)
      else m.(roundStep := m.roundStep + 1)
    else if !m.lastSub then m.(state := t.sub(m.state), lastSub := true)
    else if !m.lastShift then m.(state := t.shift(m.state), lastShift := true)
    else if !m.lastRoundKey then
      m.(state := AddRoundKey(m.state, KeyAt(m.roundKeys, m.round * 4)), lastRoundKey := true)
    else m.(done := true)
  }

  /* aes_decrypt_step: the flags set by encryption are cleared in reverse
     order, each undoing its transformation. The step that inverts SubBytes
     sets `round_step` to 4 and then decrements it with the others. */
  function DecryptStep(t: Transforms, m: Machine): Machine
  {
    if m.lastRoundKey then
      m.(state := AddRoundKey(m.state, KeyAt(m.roundKeys, m.round * 4)), lastRoundKey := false, round := m.round - 1)
    else if m.lastShift then m.(state := t.invShift(m.state), lastShift := false)
    else if m.lastSub then m.(state := t.invSub(m.state), lastSub := false)
    else if m.round > 0 then
      if m.roundStep == 0 then m.(state := t.invSub(m.state), roundStep := 3, round := m.round - 1)
      else if m.roundStep == 1 then m.(state := t.invShift(m.state), roundStep := 0)
      else if m.roundStep == 2 then m.(state := t.invMix(m.state), roundStep := 1)
      else if m.roundStep == 3 then
        m.(state := AddRoundKey(m.state, KeyAt(m.roundKeys, m.round * 4)), roundStep := 2)
      else m.(roundStep := m.roundStep - 1)
    else if m.firstRoundKey then
      m.(state := AddRoundKey(m.state, KeyAt(m.roundKeys, 0)), firstRoundKey := false)
    else m.(done := true)
  }

  /* aes_step: the `decrypt` flag chooses the direction. */
  function Step(t: Transforms, m: Machine): (r: Machine)
    ensures r.roundKeys == m.roundKeys && r.decrypt == m.decrypt
    ensures m.done ==> r.done
  {
    if m.decrypt then DecryptStep(t, m) else EncryptStep(t, m)
  }

  /* aes_step as a function of the machine alone. */
  function StepOf(t: Transforms): Machine -> Machine
  {
    m => Step(t, m)
  }

  /* n presses of the step button, the first one first. */
  function Run(t: Transforms, m: Machine, n: nat): Machine
  {
    It.Repeat(StepOf(t), m, n)
  }

  /* n = a + b presses are a presses followed by b more. */
  lemma {:induction false} RunAdd(t: Transforms, m: Machine, a: nat, b: nat, n: nat)
    requires n == a + b
    ensures Run(t, m, n) == Run(t, Run(t, m, a), b)
  {
    It.RepeatAdd(StepOf(t), m, a, b);
  }

  /* n + 1 presses are one step and then n presses. */
  lemma {:induction false} RunFirst(t: Transforms, m: Machine, n: nat)
    ensures Run(t, m, n + 1) == Run(t, Step(t, m), n)
  {
  }

  /* One press is one step. */
  lemma {:induction false} RunOne(t: Transforms, m: Machine)
    ensures Run(t, m, 1) == Step(t, m)
  {
  }

  /* The round keys of rounds 1 to 9 as the stepper reads them. */
  function MiddleKeys(rk: seq<bv32>): (keys: seq<State>)
    ensures |keys| == 9
  {
    seq(9, i requires 0 <= i < 9 => KeyAt(rk, (i + 1) * 4))
  }

  /* The four steps of a full round composed, and the four steps of the
     matching decryption round. */
  function RoundOf(t: Transforms): (State, State) -> State
  {
    (key: State, s: State) => AddRoundKey(t.mix(t.shift(t.sub(s))), key)
  }

  function InverseRoundOf(t: Transforms): (State, State) -> State
  {
    (key: State, s: State) => t.invSub(t.invShift(t.invMix(AddRoundKey(s, key))))
  }

  /* The state when encryption round r (1 to 10) begins: the first round key
     added to p, then rounds 1 to r - 1. */
  function Reached(t: Transforms, rk: seq<bv32>, p: State, r: nat): State
    requires 1 <= r <= Rounds
  {
    It.Forward(RoundOf(t), MiddleKeys(rk)[..r - 1], AddRoundKey(p, KeyAt(rk, 0)))
  }

  /* The state entering round r + 1 is the state entering round r after one
     full round with the key of round r. */
  lemma {:induction false} ReachedNext(t: Transforms, rk: seq<bv32>, p: State, r: nat)
    requires 1 <= r < Rounds
    ensures Reached(t, rk, p, r + 1) == RoundOf(t)(KeyAt(rk, r * 4), Reached(t, rk, p, r))
  {
    var keys, k := MiddleKeys(rk), r - 1;
    It.ForwardPrefix(RoundOf(t), keys, k, AddRoundKey(p, KeyAt(rk, 0)));
    assert keys[k] == KeyAt(rk, (k + 1) * 4);
  }

  /* The machines on the way: aes_start with state p, ... */
  function Started(rk: seq<bv32>, p: State): Machine
  {
    Machine(p, rk, false, 1, 0, false, false, false, false, false)
  }

  /* ... encryption at the start of round r, ... */
  function Encrypting(t: Transforms, rk: seq<bv32>, p: State, r: nat): Machine
    requires 1 <= r <= Rounds
  {
    Machine(Reached(t, rk, p, r), rk, true, r, if r < Rounds then 0 else 3, false, false, false, false, false)
  }

  /* ... and once the last round key is added. */
  function Encrypted(t: Transforms, rk: seq<bv32>, p: State): Machine
  {
    var last := AddRoundKey(t.shift(t.sub(Reached(t, rk, p, Rounds))), KeyAt(rk, Rounds * 4));
    Machine(last, rk, true, Rounds, 3, true, true, true, false, false)
  }

  /* The first step adds the first round key. */
  lemma {:induction false} FirstStep(t: Transforms, rk: seq<bv32>, p: State)
    ensures Step(t, Started(rk, p)) == Encrypting(t, rk, p, 1)
  {
  }

  /* Four steps make one full round. */
  lemma {:induction false} EncryptRoundSteps(t: Transforms, rk: seq<bv32>, p: State, r: nat)
    requires 1 <= r < Rounds
    ensures Run(t, Encrypting(t, rk, p, r), 4) == Encrypting(t, rk, p, r + 1)
  {
    var m0 := Encrypting(t, rk, p, r);
    var m1 := Step(t, m0);
    var m2 := Step(t, m1);
    var m3 := Step(t, m2);
    assert Run(t, m0, 4) == Step(t, m3);
    ReachedNext(t, rk, p, r);
  }

  /* The rounds follow one another: 4(r - 1) steps after round 1 begins,
     round r begins. */
  lemma {:induction false} EncryptRoundsSteps(t: Transforms, rk: seq<bv32>, p: State, r: nat)
    requires 1 <= r <= Rounds
    ensures Run(t, Encrypting(t, rk, p, 1), 4 * (r - 1)) == Encrypting(t, rk, p, r)
  {
    if r > 1 {
      EncryptRoundsSteps(t, rk, p, r - 1);
      RunAdd(t, Encrypting(t, rk, p, 1), 4 * (r - 1 - 1), 4, 4 * (r - 1));
      EncryptRoundSteps(t, rk, p, r - 1);
    }
  }

  /* After the tenth round begins, three steps do SubBytes, ShiftRows and the
     last round key; one more only sets `done`, and then nothing changes. */
  lemma {:induction false} EncryptLastSteps(t: Transforms, rk: seq<bv32>, p: State)
    ensures Run(t, Encrypting(t, rk, p, Rounds), 3) == Encrypted(t, rk, p)
    ensures Step(t, Encrypted(t, rk, p)) == Encrypted(t, rk, p).(done := true)
    ensures Step(t, Encrypted(t, rk, p).(done := true)) == Encrypted(t, rk, p).(done := true)
  {
    var m0 := Encrypting(t, rk, p, Rounds);
    assert Run(t, m0, 3) == Step(t, Step(t, Step(t, m0)));
  }

  /* From aes_start, 40 steps encrypt the block and the 41st sets `done`. */
  lemma {:induction false} EncryptTrace(t: Transforms, rk: seq<bv32>, p: State)
    ensures Run(t, Started(rk, p), 40) == Encrypted(t, rk, p)
    ensures Run(t, Started(rk, p), 41) == Encrypted(t, rk, p).(done := true)
  {
    var m := Started(rk, p);
    FirstStep(t, rk, p);
    EncryptRoundsSteps(t, rk, p, Rounds);
    RunAdd(t, Step(t, m), 4 * (Rounds - 1), 3, 39);
    RunFirst(t, m, 39);
    EncryptLastSteps(t, rk, p);
    RunAdd(t, m, 40, 1, 41);
    RunOne(t, Run(t, m, 40));
  }

  /* Decryption at the start of undoing round r (9 down to 0): the state is
     the one encryption had when round r + 1 began. `done` keeps whatever
     value it had when the decrypt flag was set. */
  function Decrypting(t: Transforms, rk: seq<bv32>, p: State, r: nat, done: bool): Machine
    requires r < Rounds
  {
    Machine(Reached(t, rk, p, r + 1), rk, true, r, 3, false, false, false, done, true)
  }

  /* The machine once every step is undone: the original block, every flag
     cleared, round 0. */
  function Decrypted(rk: seq<bv32>, p: State, done: bool): Machine
  {
    Machine(p, rk, false, 0, 3, false, false, false, done, true)
  }

  /* The first three decryption steps undo the last three encryption steps. */
  lemma {:induction false} DecryptFirstSteps(t: Transforms, rk: seq<bv32>, p: State, done: bool)
    requires Undoes(t)
    ensures Run(t, Encrypted(t, rk, p).(done := done, decrypt := true), 3) == Decrypting(t, rk, p, Rounds - 1, done)
  {
    var m0 := Encrypted(t, rk, p).(done := done, decrypt := true);
    var s := Reached(t, rk, p, Rounds);
    assert Run(t, m0, 3) == Step(t, Step(t, Step(t, m0)));
    AddRoundKeyInvolutive(t.shift(t.sub(s)), KeyAt(rk, Rounds * 4));
  }

  /* Four decryption steps undo one full round. */
  lemma {:induction false} DecryptRoundSteps(t: Transforms, rk: seq<bv32>, p: State, r: nat, done: bool)
    requires Undoes(t) && 1 <= r < Rounds
    ensures Run(t, Decrypting(t, rk, p, r, done), 4) == Decrypting(t, rk, p, r - 1, done)
  {
    var m0 := Decrypting(t, rk, p, r, done);
    var m1 := Step(t, m0);
    var m2 := Step(t, m1);
    var m3 := Step(t, m2);
    assert Run(t, m0, 4) == Step(t, m3);
    var s := Reached(t, rk, p, r);
    ReachedNext(t, rk, p, r);
    AddRoundKeyInvolutive(t.mix(t.shift(t.sub(s))), KeyAt(rk, r * 4));
  }

  lemma {:induction false} DecryptRoundsSteps(t: Transforms, rk: seq<bv32>, p: State, r: nat, done: bool)
    requires Undoes(t) && r < Rounds
    ensures Run(t, Decrypting(t, rk, p, Rounds - 1, done), 4 * (Rounds - 1 - r)) == Decrypting(t, rk, p, r, done)
    decreases Rounds - r
  {
    if r < Rounds - 1 {
      DecryptRoundsSteps(t, rk, p, r + 1, done);
      RunAdd(t, Decrypting(t, rk, p, Rounds - 1, done), 4 * (Rounds - 1 - (r + 1)), 4, 4 * (Rounds - 1 - r));
      DecryptRoundSteps(t, rk, p, r + 1, done);
    }
  }

  /* The last decryption step removes the first round key; the next one only
     sets `done`. */
  lemma {:induction false} DecryptLastStep(t: Transforms, rk: seq<bv32>, p: State, done: bool)
    ensures Step(t, Decrypting(t, rk, p, 0, done)) == Decrypted(rk, p, done)
    ensures Step(t, Decrypted(rk, p, done)) == Decrypted(rk, p, true)
  {
    AddRoundKeyInvolutive(p, KeyAt(rk, 0));
  }

  /* Setting the decrypt flag once encryption is over (whether or not `done`
     was reached), 39 steps bring back the state after the first round key, ... */
  lemma {:induction false} DecryptRounds(t: Transforms, rk: seq<bv32>, p: State, done: bool)
    requires Undoes(t)
    ensures Run(t, Encrypted(t, rk, p).(done := done, decrypt := true), 39) == Decrypting(t, rk, p, 0, done)
  {
    DecryptFirstSteps(t, rk, p, done);
    DecryptRoundsSteps(t, rk, p, 0, done);
    RunAdd(t, Encrypted(t, rk, p).(done := done, decrypt := true), 3, 4 * (Rounds - 1 - 0), 39);
  }

  /* ... the 40th gives back the original block and the 41st sets `done`. */
  lemma {:induction false} DecryptTrace(t: Transforms, rk: seq<bv32>, p: State, done: bool)
    requires Undoes(t)
    ensures Run(t, Encrypted(t, rk, p).(done := done, decrypt := true), 40) == Decrypted(rk, p, done)
    ensures Run(t, Encrypted(t, rk, p).(done := done, decrypt := true), 41) == Decrypted(rk, p, true)
  {
    var m := Encrypted(t, rk, p).(done := done, decrypt := true);
    DecryptRounds(t, rk, p, done);
    DecryptLastStep(t, rk, p, done);
    RunAdd(t, m, 39, 1, 40);
    RunAdd(t, m, 40, 1, 41);
    RunOne(t, Decrypting(t, rk, p, 0, done));
    RunOne(t, Decrypted(rk, p, done));
  }

  /* Encryption to `done`, the decrypt flag, and 40 more steps give back the
     original block with every flag cleared; the 41st step changes nothing
     more. */
  lemma {:induction false} RoundTrip(t: Transforms, rk: seq<bv32>, p: State)
    requires Undoes(t)
    ensures var e := Run(t, Started(rk, p), 41).(decrypt := true);
      Run(t, e, 40) == Decrypted(rk, p, true) && Run(t, e, 41) == Decrypted(rk, p, true)
  {
    EncryptTrace(t, rk, p);
    DecryptTrace(t, rk, p, true);
  }
}
