/** What several modules share. */
module Common {
  datatype Option<+T> = None | Some(value: T)

  lemma AppendAssociative<T>(a: seq<T>, b: seq<T>, c: seq<T>)
    ensures (a + b) + c == a + (b + c)
  {
  }

  lemma TakeOneMore<T>(s: seq<T>, k: nat)
    requires k < |s|
    ensures s[..k + 1] == s[..k] + [s[k]]
  {
  }

  lemma PrefixAndRest<T>(prefix: seq<T>, all: seq<T>)
    requires prefix <= all
    ensures all == prefix + all[|prefix|..]
  {
  }

  lemma SliceHead<T>(s: seq<T>, from: nat, to: nat, rest: seq<T>)
    requires from < to <= |s|
    ensures s[from..to] + rest == [s[from]] + (s[from + 1..to] + rest)
  {
    assert s[from..to] == [s[from]] + s[from + 1..to];
  }

  lemma EmptySlice<T>(s: seq<T>, k: nat, rest: seq<T>)
    requires k <= |s|
    ensures s[k..k] + rest == rest
  {
  }

  lemma WholeSlices<T>(s: seq<T>, from: nat)
    requires from <= |s|
    ensures s[from..|s|] == s[from..] && s[0..from] == s[..from] && s[0..] == s
    ensures s + [] == s && s[from..] + [] == s[from..]
  {
  }

  /** A slice without its last element. */
  lemma SliceFront<T>(s: seq<T>, from: nat, to: nat)
    requires from < to <= |s|
    ensures s[from..to][to - 1 - from] == s[to - 1] && s[from..to][..to - 1 - from] == s[from..to - 1]
  {
  }

  /** What is read behind a prefix. */
  lemma SliceBehind<T>(before: seq<T>, s: seq<T>, from: nat, to: nat)
    requires from <= to <= |s|
    ensures (before + s)[|before| + from..|before| + to] == s[from..to]
    ensures (before + s)[|before| + from..] == s[from..]
  {
  }

  /** What stands at `from`, taken apart. */
  lemma SplitBehind<T>(s: seq<T>, from: nat, first: seq<T>, rest: seq<T>)
    requires from <= |s| && s[from..] == first + rest
    ensures from + |first| <= |s| && s[from..from + |first|] == first && s[from + |first|..] == rest
  {
    assert s[from..from + |first|] == s[from..][..|first|];
    assert s[from + |first|..] == s[from..][|first|..];
  }

  /** A sequence around one of its elements, on its own and with more behind it. */
  lemma AroundElement<T>(s: seq<T>, n: nat, more: seq<T>)
    requires n < |s|
    ensures s == s[..n] + [s[n]] + s[n + 1..]
    ensures s + more == s[..n] + [s[n]] + (s[n + 1..] + more)
  {
  }

  lemma ConsTail<T>(head: T, tail: seq<T>)
    ensures ([head] + tail)[1..] == tail
  {
  }
}
