/** Facts about cutting and joining sequences. */
module Sequences {

  lemma BeforeLast<T>(s: seq<T>)
    requires s != []
    ensures s == s[..|s| - 1] + [s[|s| - 1]]
  {}

  lemma PrefixSlice<T>(s: seq<T>, n: nat, i: nat, j: nat)
    requires i <= j <= n <= |s|
    ensures s[..n][i..j] == s[i..j]
  {}

  lemma UpdatedPrefix<T>(s: seq<T>, i: nat, x: T)
    requires i < |s|
    ensures s[i := x][..i + 1] == s[..i] + [x]
  {}

  lemma SplitAt<T>(s: seq<T>, i: nat)
    requires i < |s|
    ensures s == s[..i] + [s[i]] + s[i + 1..]
  {}

  lemma SplitOf<T>(a: seq<T>, x: T, b: seq<T>)
    ensures var s := a + [x] + b;
            s[..|a|] == a && s[|a|] == x && s[|a| + 1..] == b
  {}

  lemma InnerOf<T>(x: T, a: seq<T>, y: T)
    ensures var s := [x] + a + [y];
            s[0] == x && s[|s| - 1] == y && s[1..|s| - 1] == a
  {}

  lemma EndsAround<T>(s: seq<T>)
    requires |s| >= 2
    ensures s == [s[0]] + s[1..|s| - 1] + [s[|s| - 1]]
  {}

  lemma Associative<T>(a: seq<T>, b: seq<T>, c: seq<T>)
    ensures a + b + c == a + (b + c)
  {}

  lemma NothingBefore<T>(x: T, b: seq<T>)
    ensures [] + [x] + b == [x] + b
  {}

  lemma Regroup<T>(a: seq<T>, b: seq<T>, c: seq<T>, d: seq<T>, e: seq<T>)
    ensures a + b + (c + d + e) == a + b + c + d + e
  {}

  /** Cutting a slice t of s around its p-th element gives slices of s. */
  lemma CutAround<T>(s: seq<T>, a: nat, b: nat, t: seq<T>, p: nat) returns (left: seq<T>, right: seq<T>)
    requires a + p < b <= |s| && t == s[a..b]
    ensures left == s[a..a + p] == t[..p]
    ensures right == s[a + p + 1..b] == t[p + 1..]
    ensures t[p] == s[a + p]
  {
    left, right := t[..p], t[p + 1..];
  }

  lemma SliceInner<T>(s: seq<T>, a: nat, b: nat)
    requires a + 2 <= b <= |s|
    ensures s[a..b][1..b - a - 1] == s[a + 1..b - 1]
  {
    var t := s[a..b];
    var _, tail := CutAround(s, a, b, t, 0);
    var init, _ := CutAround(s, a + 1, b, tail, b - a - 2);
    assert t[1..b - a - 1] == tail[..b - a - 2];
  }
}
