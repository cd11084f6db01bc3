/** Shared value types of the model: Go's byte and an optional value (a nil-able result). */
module Base {
  /** A Go `byte` (uint8). */
  type byte = x: int | 0 <= x < 256

  /** `None` stands for Go's nil (no error, no value). */
  datatype Option<+T> = None | Some(value: T)

  // Small facts about sequences, stated once so that proofs can call them
  // instead of asking the solver for sequence extensionality.

  lemma TakeDrop<T>(s: seq<T>, n: nat)
    requires n <= |s|
    ensures s == s[..n] + s[n..]
  {
  }

  lemma EmptyConcat<T>(s: seq<T>)
    ensures [] + s == s && s + [] == s
  {
  }

  lemma ConcatAssoc<T>(a: seq<T>, b: seq<T>, c: seq<T>)
    ensures (a + b) + c == a + (b + c)
  {
  }

  lemma PrefixOfSnoc<T>(s: seq<T>, x: T)
    ensures (s + [x])[..|s|] == s
  {
  }

  lemma HeadTail<T>(s: seq<T>)
    requires s != []
    ensures s == [s[0]] + s[1..]
  {
  }

  lemma HeadOfAppend<T>(x: seq<T>, y: seq<T>)
    requires x != []
    ensures (x + y)[0] == x[0] && (x + y)[1..] == x[1..] + y
  {
  }

  lemma TakeSnoc<T>(s: seq<T>, i: nat)
    requires i < |s|
    ensures s[..i + 1] == s[..i] + [s[i]]
  {
  }

  lemma PrefixOfAppend<T>(a: seq<T>, b: seq<T>)
    ensures forall j :: 0 <= j < |a| ==> (a + b)[j] == a[j]
  {
  }

  lemma TakePrefix<T>(a: seq<T>, b: seq<T>)
    ensures (a + b)[..|a|] == a
  {
  }

  lemma PrefixOfLonger<T>(a: seq<T>, b: seq<T>, p: seq<T>)
    requires |p| <= |a| && a[..|p|] == p
    ensures (a + b)[..|p|] == p
  {
    assert forall j :: 0 <= j < |p| ==> (a + b)[j] == a[j];
  }
}
