/** A block generator's output as one endless byte stream, however it is asked for. */
module Keystreams {
  import opened Wire

  type Block = bs: bytes | |bs| == 16 witness [0, 0, 0, 0, 0, 0, 0, 0, 0, 0, 0, 0, 0, 0, 0, 0]

  /** A state machine that yields one block after every step. */
  datatype Generator<!S> = Generator(step: S -> S, emit: S -> Block)

  function Iterate<S>(gen: Generator<S>, s: S, n: nat): S {
    if n == 0 then s else gen.step(Iterate(gen, s, n - 1))
  }

  /** The first n blocks after state s, end to end. */
  function Blocks<S>(gen: Generator<S>, s: S, n: nat): (r: bytes)
    ensures |r| == 16 * n
  {
    if n == 0 then [] else Blocks(gen, s, n - 1) + gen.emit(Iterate(gen, s, n))
  }

  lemma {:induction false} IterateSum<S>(gen: Generator<S>, s: S, m: nat, n: nat)
    ensures Iterate(gen, Iterate(gen, s, m), n) == Iterate(gen, s, m + n)
  {
    if n > 0 {
      IterateSum(gen, s, m, n - 1);
    }
  }

  /** The blocks after m steps are the later part of one block stream. */
  lemma {:induction false} BlocksSum<S>(gen: Generator<S>, s: S, m: nat, n: nat)
    ensures Blocks(gen, s, m + n) == Blocks(gen, s, m) + Blocks(gen, Iterate(gen, s, m), n)
  {
    if n > 0 {
      BlocksSum(gen, s, m, n - 1);
      IterateSum(gen, s, m, n);
    }
  }

  /** The least number of 16-byte blocks that holds n bytes. */
  function BlocksFor(n: nat): (m: nat)
    ensures n <= 16 * m < n + 16
  {
    (n + 15) / 16
  }

  // ---------------------------------------------------------------- buffered requests

  /** A generator state with the bytes of earlier blocks not yet handed out. */
  datatype Buffered<S> = Buffered(state: S, buf: bytes)

  /** Step until n bytes are available. */
  function Refill<S>(gen: Generator<S>, k: Buffered<S>, n: nat): (r: Buffered<S>)
    ensures |r.buf| >= n
    decreases n - |k.buf|
  {
    if |k.buf| >= n then k
    else
      var s := gen.step(k.state);
      Refill(gen, Buffered(s, k.buf + gen.emit(s)), n)
  }

  /** The next n bytes and what is left. */
  function Request<S>(gen: Generator<S>, k: Buffered<S>, n: nat): (r: (bytes, Buffered<S>))
    ensures |r.0| == n
  {
    var k' := Refill(gen, k, n);
    (k'.buf[..n], Buffered(k'.state, k'.buf[n..]))
  }

  function Requests<S>(gen: Generator<S>, k: Buffered<S>, sizes: seq<nat>): (bytes, Buffered<S>) {
    if sizes == [] then ([], k)
    else
      var (out, k') := Requests(gen, k, sizes[..|sizes| - 1]);
      var (last, k'') := Request(gen, k', sizes[|sizes| - 1]);
      (out + last, k'')
  }

  function Total(sizes: seq<nat>): nat {
    if sizes == [] then 0 else Total(sizes[..|sizes| - 1]) + sizes[|sizes| - 1]
  }

  /** After m steps from s, of whose blocks t bytes were handed out. */
  ghost predicate At<S>(gen: Generator<S>, s: S, m: nat, t: nat, k: Buffered<S>) {
    && t <= 16 * m
    && k.state == Iterate(gen, s, m)
    && k.buf == Blocks(gen, s, m)[t..]
  }

  lemma {:induction false} RefillAt<S>(gen: Generator<S>, s: S, m: nat, t: nat, k: Buffered<S>, n: nat)
    requires At(gen, s, m, t, k)
    ensures At(gen, s, if m >= BlocksFor(t + n) then m else BlocksFor(t + n), t, Refill(gen, k, n))
    decreases n - |k.buf|
  {
    if |k.buf| < n {
      var s' := gen.step(k.state);
      var k' := Buffered(s', k.buf + gen.emit(s'));
      assert Blocks(gen, s, m + 1)[t..] == Blocks(gen, s, m)[t..] + gen.emit(s');
      RefillAt(gen, s, m + 1, t, k', n);
    }
  }

  lemma RequestAt<S>(gen: Generator<S>, s: S, t: nat, k: Buffered<S>, n: nat)
    requires At(gen, s, BlocksFor(t), t, k)
    ensures At(gen, s, BlocksFor(t + n), t + n, Request(gen, k, n).1)
    ensures Request(gen, k, n).0 == Blocks(gen, s, BlocksFor(t + n))[t..t + n]
  {
    RefillAt(gen, s, BlocksFor(t), t, k, n);
    var all := Blocks(gen, s, BlocksFor(t + n));
    assert all[t..][..n] == all[t..t + n] && all[t..][n..] == all[t + n..];
  }

  lemma {:induction false} BlocksPrefix<S>(gen: Generator<S>, s: S, m: nat, n: nat)
    requires m <= n
    ensures Blocks(gen, s, n)[..16 * m] == Blocks(gen, s, m)
  {
    BlocksSum(gen, s, m, n - m);
  }

  /** t bytes were handed out, the first of the stream, and no more steps made than they need. */
  ghost predicate Drawn<S>(gen: Generator<S>, s: S, t: nat, out: bytes, k: Buffered<S>) {
    && out == Blocks(gen, s, BlocksFor(t))[..t]
    && At(gen, s, BlocksFor(t), t, k)
  }

  lemma DrawnMore<S>(gen: Generator<S>, s: S, t: nat, out: bytes, k: Buffered<S>, n: nat)
    requires Drawn(gen, s, t, out, k)
    ensures Drawn(gen, s, t + n, out + Request(gen, k, n).0, Request(gen, k, n).1)
  {
    hide Blocks, BlocksFor, Request, Refill;
    RequestAt(gen, s, t, k, n);
    NextStretch(gen, s, t, n);
  }

  lemma {:induction false} RequestsDraw<S>(gen: Generator<S>, s: S, sizes: seq<nat>)
    ensures var (out, k) := Requests(gen, Buffered(s, []), sizes);
            Drawn(gen, s, Total(sizes), out, k)
  {
    if sizes != [] {
      hide Drawn, Request;
      var front, n := sizes[..|sizes| - 1], sizes[|sizes| - 1];
      RequestsDraw(gen, s, front);
      var (out, k) := Requests(gen, Buffered(s, []), front);
      DrawnMore(gen, s, Total(front), out, k, n);
    }
  }

  /**
   * Keystream is independent of how it is asked for: the outputs of any requests to a fresh cipher, put together,
   * are the first bytes of its block stream; fewer than 16 bytes stay buffered, and the state has made exactly
   * as many steps as the bytes handed out need.
   */
  lemma ChunkingIndependent<S>(gen: Generator<S>, s: S, sizes: seq<nat>)
    ensures var (out, k) := Requests(gen, Buffered(s, []), sizes);
            var steps := BlocksFor(Total(sizes));
            && out == Blocks(gen, s, steps)[..Total(sizes)]
            && k.state == Iterate(gen, s, steps)
            && k.buf == Blocks(gen, s, steps)[Total(sizes)..]
            && |k.buf| < 16
  {
    RequestsDraw(gen, s, sizes);
  }

  /** The first t + n bytes of the stream are its first t, drawn from fewer blocks, and the next n. */
  lemma NextStretch<S>(gen: Generator<S>, s: S, t: nat, n: nat)
    ensures Blocks(gen, s, BlocksFor(t + n))[..t + n]
         == Blocks(gen, s, BlocksFor(t))[..t] + Blocks(gen, s, BlocksFor(t + n))[t..t + n]
  {
    hide Blocks;
    BlocksPrefix(gen, s, BlocksFor(t), BlocksFor(t + n));
    var all := Blocks(gen, s, BlocksFor(t + n));
    assert all[..16 * BlocksFor(t)][..t] == all[..t];
    assert all[..t] + all[t..t + n] == all[..t + n];
  }
}
