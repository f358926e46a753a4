/**
 The shape of the round loops of aes_encrypt and aes_decrypt, apart from what
 a round does: a step function applied once per round key, through the keys
 in order (encryption) or in reverse order (decryption).
 */
module Iteration {

  /* The steps for ks[0], ks[1], ..., ks[|ks| - 1], in that order. */
  function Forward<K, T>(f: (K, T) -> T, ks: seq<K>, s: T): T
  {
    if |ks| == 0 then s else f(ks[|ks| - 1], Forward(f, ks[..|ks| - 1], s))
  }

  /* The steps for ks[|ks| - 1], ..., ks[1], ks[0], in that order. */
  function Backward<K, T>(g: (K, T) -> T, ks: seq<K>, s: T): T
  {
    if |ks| == 0 then s else Backward(g, ks[..|ks| - 1], g(ks[|ks| - 1], s))
  }

  /* When each step of g undoes the step of f for the same key, going
     backward undoes going forward, ... */
  lemma {:induction false} BackwardUndoesForward<K, T>(f: (K, T) -> T, g: (K, T) -> T, ks: seq<K>, s: T)
    requires forall k: K, x: T :: g(k, f(k, x)) == x
    ensures Backward(g, ks, Forward(f, ks, s)) == s
  {
    if |ks| > 0 {
      BackwardUndoesForward(f, g, ks[..|ks| - 1], s);
    }
  }

  /* ... and when each step of f undoes the step of g, going forward undoes
     going backward. */
  lemma {:induction false} ForwardUndoesBackward<K, T>(f: (K, T) -> T, g: (K, T) -> T, ks: seq<K>, s: T)
    requires forall k: K, x: T :: f(k, g(k, x)) == x
    ensures Forward(f, ks, Backward(g, ks, s)) == s
  {
    if |ks| > 0 {
      var p, k := ks[..|ks| - 1], ks[|ks| - 1];
      ForwardUndoesBackward(f, g, p, g(k, s));
    }
  }

  /* Step functions that agree on every key and state iterate to the same
     result. */
  lemma {:induction false} ForwardPointwise<K, T>(f: (K, T) -> T, g: (K, T) -> T, ks: seq<K>, s: T)
    requires forall k: K, x: T :: f(k, x) == g(k, x)
    ensures Forward(f, ks, s) == Forward(g, ks, s)
  {
    if |ks| > 0 {
      ForwardPointwise(f, g, ks[..|ks| - 1], s);
    }
  }

  /* Going forward through one more key of ks applies one more step. */
  lemma {:induction false} ForwardPrefix<K, T>(f: (K, T) -> T, ks: seq<K>, n: nat, s: T)
    requires n < |ks|
    ensures Forward(f, ks[..n + 1], s) == f(ks[n], Forward(f, ks[..n], s))
  {
    assert ks[..n + 1][..n] == ks[..n];
  }

  /* n applications of f, the first one first. */
  function Repeat<T>(f: T -> T, x: T, n: nat): T
    decreases n
  {
    if n == 0 then x else Repeat(f, f(x), n - 1)
  }

  /* a + b applications are a applications followed by b more. */
  lemma {:induction false} RepeatAdd<T>(f: T -> T, x: T, a: nat, b: nat)
    ensures Repeat(f, x, a + b) == Repeat(f, Repeat(f, x, a), b)
    decreases a
  {
    if a > 0 {
      RepeatAdd(f, f(x), a - 1, b);
    }
  }
}
