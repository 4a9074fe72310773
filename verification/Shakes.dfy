/** The hash functions of the scheme, as streams of the sponge. */
module Shakes {
  import opened Arith
  import opened Keccak
  import opened SpongeOps
  import S = Sampling

  const SHAKE128_RATE: nat := 168
  const SHAKE256_RATE: nat := 136

  /** The state after absorbing and finalizing the whole input. */
  function Ready(f: Permutation, r: nat, input: seq<Byte>): (st: State)
    requires IsRate(r)
    ensures st.pos == 0
  {
    Pad(r, 0x1F, Feed(f, r, Fresh(), input))
  }

  /** Byte j of the output stream. */
  function StreamByte(f: Permutation, r: nat, input: seq<Byte>, j: nat): Byte
    requires IsRate(r)
  {
    Drain(f, r, Ready(f, r, input), j + 1)[j]
  }

  function ShakeXof(f: Permutation, r: nat): S.Xof
    requires IsRate(r)
  {
    (input, j) => StreamByte(f, r, input, j)
  }

  /** The hash functions of the scheme, built on one permutation. */
  function ShakeHash(f: Permutation): S.Hash
  {
    S.Hash(ShakeXof(f, SHAKE128_RATE), ShakeXof(f, SHAKE256_RATE))
  }

  /** Any stretch of the output stream is what squeezing gives at that point. */
  lemma StreamIsDrain(f: Permutation, r: nat, input: seq<Byte>, start: nat, n: nat)
    requires IsRate(r)
    ensures S.Squeeze(ShakeXof(f, r), input, start, n) ==
            Drain(f, r, After(f, r, Ready(f, r, input), start), n)
  {
    hide Drain, After, Ready;
    var st := Ready(f, r, input);
    var d := Drain(f, r, After(f, r, st, start), n);
    forall i | 0 <= i < n
      ensures StreamByte(f, r, input, start + i) == d[i]
    {
      DrainConcat(f, r, st, start, n);
      DrainPrefix(f, r, st, start + i + 1, start + n);
      assert Drain(f, r, st, start + n)[start + i] == d[i];
    }
  }

  /** The stream from the beginning is the one-shot function's output. */
  lemma StreamIsOneShot(f: Permutation, r: nat, input: seq<Byte>, n: nat)
    requires IsRate(r)
    ensures S.Squeeze(ShakeXof(f, r), input, 0, n) == OneShot(f, r, 0x1F, input, n)
  {
    hide OneShot;
    StreamIsDrain(f, r, input, 0, n);
    OneShotAgrees(f, r, 0x1F, input, n);
  }

  /** Four pieces absorbed one after the other, then one squeeze. */
  method HashPieces(f: Permutation, a: seq<Byte>, b: seq<Byte>, c: seq<Byte>, d: seq<Byte>, n: nat)
    returns (h: seq<Byte>)
    ensures h == S.Squeeze(ShakeHash(f).shake256, a + b + c + d, 0, n)
  {
    hide Feed, Drain, After, Pad;
    var state := new Sponge(f, SHAKE256_RATE);
    state.Absorb(a);
    state.Absorb(b);
    state.Absorb(c);
    state.Absorb(d);
    FeedConcat(f, SHAKE256_RATE, Fresh(), a, b);
    FeedConcat(f, SHAKE256_RATE, Fresh(), a + b, c);
    FeedConcat(f, SHAKE256_RATE, Fresh(), a + b + c, d);
    state.Finalize(0x1F);
    h := state.Squeeze(n);
    StreamIsDrain(f, SHAKE256_RATE, a + b + c + d, 0, n);
    AfterNone(f, SHAKE256_RATE, Ready(f, SHAKE256_RATE, a + b + c + d));
  }
}
