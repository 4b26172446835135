/** Chains of readers and writers, each made from the one before by a generator. A reader stands for all it
    will deliver; a writer turns all that is written to it into what reaches the connection. */
module Pipes {
  /** What calling a generator comes to: a missing function panics. */
  datatype Opened<T> = Panic | Failed | Opened(value: T)

  type Generator<!T> = T -> Opened<T>

  /** A nil entry in a list of generators. */
  function Nil<T>(): Generator<T> {
    _ => Panic
  }

  type Reader = string

  datatype Writer = Connection | Encode(enc: string -> string, under: Writer)

  /** What reaches the connection when x is written and everything is closed. */
  function Emitted(w: Writer, x: string): string {
    match w
    case Connection => x
    case Encode(enc, under) => Emitted(under, enc(x))
  }

  function Flatten<T>(pipes: seq<seq<T>>): seq<T> {
    if pipes == [] then [] else Flatten(pipes[..|pipes| - 1]) + pipes[|pipes| - 1]
  }

  /** Generators applied first to last, each to what the one before made. */
  function Chain<T>(source: T, gs: seq<Generator<T>>): Opened<T> {
    if gs == [] then Opened(source)
    else
      var made := Chain(source, gs[..|gs| - 1]);
      if made.Opened? then gs[|gs| - 1](made.value) else made
  }

  /** Where generator k of list i stands among all of them. */
  lemma {:induction false} FlattenAt<T>(pipes: seq<seq<T>>, i: nat, k: nat)
    requires i < |pipes| && k < |pipes[i]|
    ensures |Flatten(pipes[..i])| + |pipes[i]| <= |Flatten(pipes)|
    ensures Flatten(pipes)[|Flatten(pipes[..i])| + k] == pipes[i][k]
    decreases |pipes|
  {
    var n := |pipes| - 1;
    if i < n {
      FlattenAt(pipes[..n], i, k);
      assert pipes[..n][..i] == pipes[..i];
    }
  }

  lemma FlattenNext<T>(pipes: seq<seq<T>>, i: nat)
    requires i < |pipes|
    ensures |Flatten(pipes[..i + 1])| == |Flatten(pipes[..i])| + |pipes[i]|
  {
    assert pipes[..i + 1][..i] == pipes[..i];
  }

  lemma FlattenEnds<T>(pipes: seq<seq<T>>)
    ensures Flatten(pipes[..0]) == [] && Flatten(pipes[..|pipes|]) == Flatten(pipes)
  {
    assert pipes[..|pipes|] == pipes;
  }

  lemma ChainStart<T>(source: T, gs: seq<Generator<T>>)
    ensures Chain(source, gs[..0]) == Opened(source)
  {
  }

  lemma ChainNext<T>(source: T, gs: seq<Generator<T>>, k: nat)
    requires k < |gs|
    ensures Chain(source, gs[..k]).Opened? ==> Chain(source, gs[..k + 1]) == gs[k](Chain(source, gs[..k]).value)
  {
    assert gs[..k + 1][..k] == gs[..k];
  }

  /** Once a generator has failed the chain has. */
  lemma {:induction false} ChainFails<T>(source: T, gs: seq<Generator<T>>, k: nat)
    requires k <= |gs| && !Chain(source, gs[..k]).Opened?
    ensures Chain(source, gs) == Chain(source, gs[..k])
  {
    if k < |gs| {
      assert gs[..|gs| - 1][..k] == gs[..k];
      ChainFails(source, gs[..|gs| - 1], k);
    } else {
      assert gs[..k] == gs;
    }
  }

  /** ReaderPipe and WriterPipe, which differ in their element types only. */
  class Pipe<T(0)> {
    const ends: array<T>

    constructor (c: nat)
      ensures fresh(ends) && ends.Length == c
    {
      ends := new T[c];
    }

    /** The back of the array holds what the first `done` generators made. */
    ghost predicate Filled(source: T, gs: seq<Generator<T>>, done: nat)
      reads ends
    {
      && done <= |gs| && ends.Length == |gs| + 1
      && forall k | 0 <= k <= done :: Chain(source, gs[..k]) == Opened(ends[|gs| - k])
    }

    /** r goes in front of what is there. */
    method Put(c: nat, r: T, ghost source: T, ghost gs: seq<Generator<T>>)
      requires c <= |gs| && ends.Length == |gs| + 1 && (c < |gs| ==> Filled(source, gs, |gs| - c - 1))
      requires Chain(source, gs[..|gs| - c]) == Opened(r)
      modifies ends
      ensures Filled(source, gs, |gs| - c) && ends[c] == r
    {
      ends[c] := r;
    }
  }

  /** Close, on the elements from the one made last to the source, up to the first that fails. */
  method Close<T(0)>(pipe: Pipe<T>, close: T -> bool) returns (closed: nat, ok: bool)
    ensures closed <= pipe.ends.Length && (closed == 0 <==> pipe.ends.Length == 0)
    ensures forall i | 0 <= i < closed - 1 :: close(pipe.ends[i])
    ensures ok <==> closed == pipe.ends.Length && forall i | 0 <= i < closed :: close(pipe.ends[i])
    ensures !ok ==> closed > 0 && !close(pipe.ends[closed - 1])
  {
    if pipe.ends.Length == 0 {
      return 0, true;
    }
    var i := 0;
    while true
      invariant 0 <= i < pipe.ends.Length && forall k | 0 <= k < i :: close(pipe.ends[k])
      decreases pipe.ends.Length - i
    {
      ok := close(pipe.ends[i]);
      i := i + 1;
      if i == pipe.ends.Length || !ok {
        return i, ok;
      }
    }
  }

  method Count<T>(pipes: seq<seq<T>>) returns (c: nat)
    ensures c == 1 + |Flatten(pipes)|
  {
    FlattenEnds(pipes);
    c := 1;
    for pipesI := 0 to |pipes|
      invariant c == 1 + |Flatten(pipes[..pipesI])|
    {
      FlattenNext(pipes, pipesI);
      c := c + |pipes[pipesI]|;
    }
  }

  /** From and To: what the last generator made is the first in the array, the source the last. */
  method Build<T(0)>(source: T, pipes: seq<seq<Generator<T>>>) returns (out: Opened<Pipe<T>>)
    ensures var gs := Flatten(pipes);
            match out {
              case Opened(pipe) => pipe.Filled(source, gs, |gs|) && Chain(source, gs) == Opened(pipe.ends[0])
              case Panic => Chain(source, gs) == Panic
              case Failed => Chain(source, gs) == Failed
            }
  {
    ghost var gs := Flatten(pipes);
    var c := Count(pipes);
    hide Flatten, Chain, Pipe.Filled;
    FlattenEnds(pipes);
    ChainStart(source, gs);
    var pipe := new Pipe<T>(c);
    c := c - 1;
    var r := source;
    pipe.Put(c, r, source, gs);
    for pipesI := 0 to |pipes|
      invariant c == |gs| - |Flatten(pipes[..pipesI])| >= 0
      invariant pipe.ends.Length == |gs| + 1 && pipe.Filled(source, gs, |gs| - c)
      invariant Chain(source, gs[..|gs| - c]) == Opened(r) && r == pipe.ends[c]
    {
      for k := 0 to |pipes[pipesI]|
        invariant c == |gs| - (|Flatten(pipes[..pipesI])| + k) >= 0
        invariant pipe.ends.Length == |gs| + 1 && pipe.Filled(source, gs, |gs| - c)
        invariant Chain(source, gs[..|gs| - c]) == Opened(r) && r == pipe.ends[c]
      {
        var p := pipes[pipesI][k];
        FlattenAt(pipes, pipesI, k);
        ChainNext(source, gs, |gs| - c);
        var made := p(r);
        if !made.Opened? {
          ChainFails(source, gs, |gs| - c + 1);
          return if made == Panic then Panic else Failed;
        }
        r := made.value;
        c := c - 1;
        pipe.Put(c, r, source, gs);
      }
      FlattenNext(pipes, pipesI);
    }
    assert gs[..|gs|] == gs;
    return Opened(pipe);
  }
}
