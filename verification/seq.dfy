/**
 * The sequence and object helpers of lib/seq.js.
 *
 * A JavaScript array that is built and returned by value is a `seq`; a plain
 * object that `copyProps` mutates is a `Dict`, a class whose one field holds
 * its own properties as a map from property name to value.
 */
module SeqLib {

  /** A JavaScript object used as a dictionary of own properties. */
  class Dict<V> {
    var entries: map<string, V>

    constructor ()
      ensures entries == map[]
    {
      entries := map[];
    }
  }

  /** Copies an array-like value (a node list, `arguments`) into a fresh sequence. */
  method ToArray<T>(indexable: array<T>) returns (out: seq<T>)
    ensures |out| == indexable.Length
    ensures forall i :: 0 <= i < indexable.Length ==> out[i] == indexable[i]
  {
    out := [];
    var i := 0;
    var l := indexable.Length;
    while i < l
      invariant 0 <= i <= l
      invariant |out| == i
      invariant forall j :: 0 <= j < i ==> out[j] == indexable[j]
    {
      out := out + [indexable[i]];
      i := i + 1;
    }
  }

  /** The in-order concatenation f(s[0]) + ... + f(s[|s|-1]). */
  function Flatten<T, U>(f: T -> seq<U>, s: seq<T>): seq<U>
  {
    if s == [] then [] else Flatten(f, s[..|s| - 1]) + f(s[|s| - 1])
  }

  /** Sum of the lengths of the pieces f(x) for x in s. */
  function PieceLengths<T, U>(f: T -> seq<U>, s: seq<T>): nat
  {
    if s == [] then 0 else PieceLengths(f, s[..|s| - 1]) + |f(s[|s| - 1])|
  }

  lemma {:induction false} FlattenLength<T, U>(f: T -> seq<U>, s: seq<T>)
    ensures |Flatten(f, s)| == PieceLengths(f, s)
  {
    if s != [] {
      FlattenLength(f, s[..|s| - 1]);
    }
  }

  /** Flattening distributes over concatenation of the input. */
  lemma {:induction false} FlattenAppend<T, U>(f: T -> seq<U>, a: seq<T>, b: seq<T>)
    ensures Flatten(f, a + b) == Flatten(f, a) + Flatten(f, b)
    decreases |b|
  {
    if b == [] {
      assert a + b == a;
    } else {
      var b' := b[..|b| - 1];
      assert (a + b)[..|a + b| - 1] == a + b';
      assert (a + b)[|a + b| - 1] == b[|b| - 1];
      FlattenAppend(f, a, b');
    }
  }

  /** Two piece functions that agree on every element flatten alike. */
  lemma {:induction false} FlattenCongruent<T, U>(f: T -> seq<U>, g: T -> seq<U>, s: seq<T>)
    requires forall i :: 0 <= i < |s| ==> f(s[i]) == g(s[i])
    ensures Flatten(f, s) == Flatten(g, s)
  {
    if s != [] {
      FlattenCongruent(f, g, s[..|s| - 1]);
    }
  }

  /** `flatMap(f, seq)`: concatenates the pieces in a loop. */
  method FlatMap<T, U>(f: T -> seq<U>, s: seq<T>) returns (out: seq<U>)
    ensures out == Flatten(f, s)
    ensures |out| == PieceLengths(f, s)
    ensures s == [] ==> out == []
  {
    out := [];
    var i := 0;
    var l := |s|;
    while i < l
      invariant 0 <= i <= l
      invariant out == Flatten(f, s[..i])
    {
      assert s[..i + 1][..i] == s[..i];
      out := out + f(s[i]);
      i := i + 1;
    }
    assert s[..l] == s;
    FlattenLength(f, s);
  }

  /** Right-biased union of a list of dictionaries: later keys win. */
  function Union<V>(ms: seq<map<string, V>>): map<string, V>
  {
    if ms == [] then map[] else Union(ms[..|ms| - 1]) + ms[|ms| - 1]
  }

  /** The key set of `Union(ms)` is the union of the arguments' key sets. */
  lemma {:induction false} UnionKeys<V>(ms: seq<map<string, V>>, k: string)
    ensures k in Union(ms) <==> exists i :: 0 <= i < |ms| && k in ms[i]
  {
    if ms != [] {
      var init := ms[..|ms| - 1];
      UnionKeys(init, k);
      if k in Union(ms) && k !in ms[|ms| - 1] {
        var i :| 0 <= i < |init| && k in init[i];
        assert k in ms[i];
      }
      if exists i :: 0 <= i < |ms| && k in ms[i] {
        var i :| 0 <= i < |ms| && k in ms[i];
        if i < |ms| - 1 {
          assert k in init[i];
        }
      }
    }
  }

  /** A key present in argument `i` and in no later argument takes its value from `i`. */
  lemma {:induction false} UnionLastWins<V>(ms: seq<map<string, V>>, k: string, i: nat)
    requires i < |ms| && k in ms[i]
    requires forall j :: i < j < |ms| ==> k !in ms[j]
    ensures k in Union(ms) && Union(ms)[k] == ms[i][k]
  {
    var init := ms[..|ms| - 1];
    if i < |ms| - 1 {
      assert k !in ms[|ms| - 1];
      UnionLastWins(init, k, i);
    }
  }

  /**
   * `copyProps(target, src)`: writes every own property of `src` into
   * `target`, one key at a time, and returns `target`.
   */
  method CopyProps<V>(target: Dict<V>, src: Dict<V>) returns (r: Dict<V>)
    modifies target
    ensures r == target
    ensures target.entries == old(target.entries) + old(src.entries)
  {
    var source := src.entries;
    var todo := source.Keys;
    while todo != {}
      invariant todo <= source.Keys
      invariant target.entries == old(target.entries) + map k | k in source.Keys - todo :: source[k]
      decreases todo
    {
      var k :| k in todo;
      target.entries := target.entries[k := source[k]];
      todo := todo - {k};
    }
    assert source.Keys - todo == source.Keys;
    assert target.entries == old(target.entries) + source;
    r := target;
  }

  /** The entries of each dictionary in `objs`. */
  ghost function EntriesOf<V>(objs: seq<Dict<V>>): (r: seq<map<string, V>>)
    reads objs
    ensures |r| == |objs|
    ensures forall i :: 0 <= i < |objs| ==> r[i] == objs[i].entries
  {
    if objs == [] then [] else EntriesOf(objs[..|objs| - 1]) + [objs[|objs| - 1].entries]
  }

  /**
   * `merge(obj1, ..., objn)`: copies every argument, left to right, into a
   * fresh dictionary. No argument is changed (the method modifies nothing
   * that existed before the call).
   */
  method Merge<V>(objs: seq<Dict<V>>) returns (r: Dict<V>)
    ensures fresh(r)
    ensures r.entries == Union(old(EntriesOf(objs)))
    ensures forall i :: 0 <= i < |objs| ==> objs[i].entries == old(objs[i].entries)
  {
    ghost var es := EntriesOf(objs);
    r := new Dict<V>();
    if objs == [] {
      return;
    }
    var acc := CopyProps(r, objs[0]);
    UnionStep(es, 0);
    var i := 1;
    while i < |objs|
      modifies r
      invariant 1 <= i <= |objs| && acc == r
      invariant r.entries == Union(es[..i])
      invariant forall j :: 0 <= j < |objs| ==> objs[j].entries == es[j]
    {
      acc := CopyProps(acc, objs[i]);
      UnionStep(es, i);
      i := i + 1;
    }
    assert es[..|objs|] == es;
  }

  /** Extending the argument list by one dictionary lays it over the union so far. */
  lemma UnionStep<V>(ms: seq<map<string, V>>, i: nat)
    requires i < |ms|
    ensures Union(ms[..i + 1]) == Union(ms[..i]) + ms[i]
  {
    assert ms[..i + 1][..i] == ms[..i];
  }
}
