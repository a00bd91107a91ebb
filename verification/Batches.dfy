/** Lists of batches and their flattened view. */
module Batches {

  function Flatten<T>(bs: seq<seq<T>>): seq<T> {
    if bs == [] then [] else Flatten(bs[..|bs| - 1]) + bs[|bs| - 1]
  }

  function Shape<T>(bs: seq<seq<T>>): seq<nat> {
    seq(|bs|, i requires 0 <= i < |bs| => |bs[i]|)
  }

  lemma FlattenNone<T>()
    ensures Flatten<T>([]) == []
  {
  }

  lemma FlattenPush<T>(bs: seq<seq<T>>, b: seq<T>)
    ensures Flatten(bs + [b]) == Flatten(bs) + b
  {
    assert (bs + [b])[..|bs|] == bs;
  }

  lemma FlattenTake<T>(bs: seq<seq<T>>, b: nat)
    requires b < |bs|
    ensures Flatten(bs[..b + 1]) == Flatten(bs[..b]) + bs[b]
  {
    assert bs[..b + 1][..b] == bs[..b];
  }

  /** Replacing a batch by one of the same length keeps the shape, the batches before it and those after it. */
  lemma ReplaceBatch<T>(bs: seq<seq<T>>, b: nat, batch: seq<T>)
    requires b < |bs| && |batch| == |bs[b]|
    ensures Shape(bs[b := batch]) == Shape(bs) && bs[b := batch][b + 1..] == bs[b + 1..]
    ensures Flatten(bs[b := batch][..b + 1]) == Flatten(bs[..b]) + batch
  {
    FlattenTake(bs[b := batch], b);
    assert bs[b := batch][..b] == bs[..b];
  }

  /** Lists of equal shape are equal when their flattened views are. */
  lemma {:induction false} FlattenInjective<T>(a: seq<seq<T>>, b: seq<seq<T>>)
    requires Shape(a) == Shape(b) && Flatten(a) == Flatten(b)
    ensures a == b
  {
    assert |a| == |Shape(a)| && |b| == |Shape(b)|;
    if a != [] {
      var n := |a| - 1;
      var a', b' := a[..n], b[..n];
      assert |a[n]| == Shape(a)[n] && |b[n]| == Shape(b)[n];
      assert Flatten(a)[|Flatten(a')|..] == a[n] && Flatten(a)[..|Flatten(a')|] == Flatten(a');
      assert Flatten(b)[|Flatten(b')|..] == b[n] && Flatten(b)[..|Flatten(b')|] == Flatten(b');
      assert Shape(a') == Shape(a)[..n] && Shape(b') == Shape(b)[..n];
      FlattenInjective(a', b');
      assert a == a' + [a[n]] && b == b' + [b[n]];
    }
  }

  /** The flat list cut back into batches of the given shape. */
  function Unflatten<T>(flat: seq<T>, shape: seq<nat>): seq<seq<T>>
    requires |flat| == Sum(shape)
    decreases |shape|
  {
    if shape == [] then []
    else
      var n := |shape| - 1;
      var at := |flat| - shape[n];
      Unflatten(flat[..at], shape[..n]) + [flat[at..]]
  }

  function Sum(ns: seq<nat>): nat {
    if ns == [] then 0 else Sum(ns[..|ns| - 1]) + ns[|ns| - 1]
  }

  lemma {:induction false} UnflattenFlattens<T>(flat: seq<T>, shape: seq<nat>)
    requires |flat| == Sum(shape)
    ensures Flatten(Unflatten(flat, shape)) == flat && Shape(Unflatten(flat, shape)) == shape
    decreases |shape|
  {
    if shape != [] {
      var n := |shape| - 1;
      var at := |flat| - shape[n];
      UnflattenFlattens(flat[..at], shape[..n]);
      var init := Unflatten(flat[..at], shape[..n]);
      FlattenPush(init, flat[at..]);
      assert Shape(init + [flat[at..]]) == Shape(init) + [shape[n]];
      assert shape == shape[..n] + [shape[n]];
    }
  }

  lemma {:induction false} FlattenLength<T>(bs: seq<seq<T>>)
    ensures |Flatten(bs)| == Sum(Shape(bs))
  {
    if bs != [] {
      FlattenLength(bs[..|bs| - 1]);
      assert Shape(bs)[..|bs| - 1] == Shape(bs[..|bs| - 1]);
    }
  }
}
