/** Concatenation of blocks, used for frames of samples and for recorded blocks alike. */
module Sequences {
  function Flat<T>(blocks: seq<seq<T>>): (s: seq<T>) {
    if blocks == [] then [] else blocks[0] + Flat(blocks[1..])
  }

  lemma {:induction false} FlatConcat<T>(a: seq<seq<T>>, b: seq<seq<T>>)
    ensures Flat(a + b) == Flat(a) + Flat(b)
  {
    if a == [] {
      assert a + b == b;
    } else {
      assert (a + b)[1..] == a[1..] + b;
      FlatConcat(a[1..], b);
    }
  }

  lemma FlatAppend<T>(a: seq<seq<T>>, block: seq<T>)
    ensures Flat(a + [block]) == Flat(a) + block
  {
    FlatConcat(a, [block]);
    assert Flat([block]) == block + Flat([]);
  }

  lemma FlatPrefix<T>(a: seq<seq<T>>, n: nat)
    requires n < |a|
    ensures Flat(a[..n + 1]) == Flat(a[..n]) + a[n]
  {
    assert a[..n + 1] == a[..n] + [a[n]];
    FlatAppend(a[..n], a[n]);
  }

  lemma FlatSplit<T>(a: seq<seq<T>>, k: nat)
    requires k <= |a|
    ensures Flat(a) == Flat(a[..k]) + Flat(a[k..])
  {
    FlatConcat(a[..k], a[k..]);
    assert a == a[..k] + a[k..];
  }
}

/** What a source answers when the mixer asks it for a frame. */
module AudioFrames {
  datatype AudioFrameInfo = Normal | Muted | Error
}
