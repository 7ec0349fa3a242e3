// Byte strings, and the concatenation of a list of them. A chained buffer denotes
// the flattening of the data held by its chains.
module Bytes {
  newtype byte = x: int | 0 <= x < 256

  // The first n pieces, concatenated.
  function Prefix(pieces: seq<seq<byte>>, n: nat): seq<byte>
    requires n <= |pieces|
  {
    if n == 0 then [] else Prefix(pieces, n - 1) + pieces[n - 1]
  }

  function Flatten(pieces: seq<seq<byte>>): seq<byte> {
    Prefix(pieces, |pieces|)
  }

  // Prefix looks at the first n pieces only.
  lemma {:induction false} PrefixAgree(a: seq<seq<byte>>, b: seq<seq<byte>>, n: nat)
    requires n <= |a| && n <= |b|
    requires forall i :: 0 <= i < n ==> a[i] == b[i]
    ensures Prefix(a, n) == Prefix(b, n)
  {
    if n > 0 {
      PrefixAgree(a, b, n - 1);
    }
  }

  lemma {:induction false} PrefixConcat(a: seq<seq<byte>>, b: seq<seq<byte>>, n: nat)
    requires n <= |b|
    ensures Prefix(a + b, |a| + n) == Flatten(a) + Prefix(b, n)
  {
    if n == 0 {
      PrefixAgree(a + b, a, |a|);
    } else {
      PrefixConcat(a, b, n - 1);
      assert (a + b)[|a| + n - 1] == b[n - 1];
      Associate(Flatten(a), Prefix(b, n - 1), b[n - 1]);
    }
  }

  lemma Associate(a: seq<byte>, b: seq<byte>, c: seq<byte>)
    ensures a + b + c == a + (b + c)
  {
  }

  lemma FlattenConcat(a: seq<seq<byte>>, b: seq<seq<byte>>)
    ensures Flatten(a + b) == Flatten(a) + Flatten(b)
  {
    PrefixConcat(a, b, |b|);
  }

  lemma FlattenSplit(a: seq<seq<byte>>, k: nat)
    requires k <= |a|
    ensures Flatten(a) == Flatten(a[..k]) + Flatten(a[k..])
  {
    assert a == a[..k] + a[k..];
    FlattenConcat(a[..k], a[k..]);
  }

  lemma {:induction false} FlattenEmpty(a: seq<seq<byte>>)
    requires forall i :: 0 <= i < |a| ==> a[i] == []
    ensures Flatten(a) == []
  {
    if a != [] {
      FlattenEmpty(a[..|a| - 1]);
      PrefixAgree(a, a[..|a| - 1], |a| - 1);
    }
  }

  // Cutting off a tail of empty pieces changes nothing.
  lemma FlattenCut(a: seq<seq<byte>>, k: nat)
    requires k <= |a|
    requires forall i :: k <= i < |a| ==> a[i] == []
    ensures Flatten(a[..k]) == Flatten(a)
  {
    FlattenSplit(a, k);
    FlattenEmpty(a[k..]);
  }

  lemma FlattenSingle(s: seq<byte>)
    ensures Flatten([s]) == s
  {
    assert Prefix([s], 1) == Prefix([s], 0) + s;
  }

  // Replacing a tail of empty pieces by one piece appends it.
  lemma FlattenPush(a: seq<seq<byte>>, k: nat, s: seq<byte>)
    requires k <= |a|
    requires forall i :: k <= i < |a| ==> a[i] == []
    ensures Flatten(a[..k] + [s]) == Flatten(a) + s
  {
    FlattenCut(a, k);
    FlattenConcat(a[..k], [s]);
    FlattenSingle(s);
  }

  // The flattening around position k.
  lemma FlattenAt(a: seq<seq<byte>>, k: nat)
    requires k < |a|
    ensures Flatten(a) == Flatten(a[..k]) + a[k] + Flatten(a[k + 1..])
  {
    FlattenSplit(a, k + 1);
    PrefixAgree(a[..k + 1], a[..k], k);
  }

  // The flattening when piece k is replaced.
  lemma FlattenReplace(a: seq<seq<byte>>, k: nat, s: seq<byte>)
    requires k < |a|
    ensures Flatten(a[k := s]) == Flatten(a[..k]) + s + Flatten(a[k + 1..])
  {
    FlattenAt(a[k := s], k);
    assert a[k := s][..k] == a[..k] && a[k := s][k + 1..] == a[k + 1..];
  }

  // Extending the last non-empty piece extends the whole.
  lemma FlattenGrow(a: seq<seq<byte>>, k: nat, d: seq<byte>)
    requires k < |a|
    requires forall i :: k < i < |a| ==> a[i] == []
    ensures Flatten(a[k := a[k] + d]) == Flatten(a) + d
  {
    FlattenAt(a, k);
    FlattenReplace(a, k, a[k] + d);
    FlattenEmpty(a[k + 1..]);
  }

  // Extending the first piece at its front extends the whole at its front.
  lemma FlattenGrowFront(a: seq<seq<byte>>, d: seq<byte>)
    requires a != []
    ensures Flatten(a[0 := d + a[0]]) == d + Flatten(a)
  {
    FlattenAt(a, 0);
    FlattenReplace(a, 0, d + a[0]);
    assert a[..0] == [];
  }

  lemma FlattenCons(s: seq<byte>, a: seq<seq<byte>>)
    ensures Flatten([s] + a) == s + Flatten(a)
  {
    FlattenConcat([s], a);
    FlattenSingle(s);
  }

  // Dropping the first k pieces drops that many bytes.
  lemma FlattenDrop(a: seq<seq<byte>>, k: nat)
    requires k <= |a|
    ensures Flatten(a[..k]) == Prefix(a, k)
    ensures |Prefix(a, k)| <= |Flatten(a)| && Flatten(a[k..]) == Flatten(a)[|Prefix(a, k)|..]
  {
    FlattenSplit(a, k);
    PrefixAgree(a, a[..k], k);
  }

  // Shortening the first piece at its front shortens the whole at its front.
  lemma FlattenShrinkFront(a: seq<seq<byte>>, n: nat)
    requires a != [] && n <= |a[0]|
    ensures n <= |Flatten(a)| && Flatten(a[0 := a[0][n..]]) == Flatten(a)[n..]
  {
    FlattenAt(a, 0);
    FlattenReplace(a, 0, a[0][n..]);
    assert a[..0] == [];
  }

  lemma {:induction false} PrefixMonotone(a: seq<seq<byte>>, i: nat, j: nat)
    requires i <= j <= |a|
    ensures Prefix(a, i) <= Prefix(a, j)
  {
    if i < j {
      PrefixMonotone(a, i, j - 1);
    }
  }

  lemma SliceMiddle(a: seq<byte>, b: seq<byte>, c: seq<byte>, lo: nat, hi: nat)
    requires lo <= hi <= |b|
    ensures (a + b + c)[|a| + lo..|a| + hi] == b[lo..hi]
  {
  }

  lemma SliceSlice(s: seq<byte>, a: nat, b: nat, lo: nat, hi: nat)
    requires a <= b <= |s| && lo <= hi <= b - a
    ensures s[a..b][lo..hi] == s[a + lo..a + hi]
  {
    var t := s[a..b];
    assert forall i :: 0 <= i < hi - lo ==> t[lo..hi][i] == t[lo + i] == s[a + lo + i] == s[a + lo..a + hi][i];
  }

  lemma SliceJoin(s: seq<byte>, lo: nat, mid: nat, hi: nat)
    requires lo <= mid <= hi <= |s|
    ensures s[lo..mid] + s[mid..hi] == s[lo..hi]
  {
  }

  // Bytes lo..hi of piece k, read from the whole.
  lemma FlattenSlice(a: seq<seq<byte>>, k: nat, lo: nat, hi: nat)
    requires k < |a| && lo <= hi <= |a[k]|
    ensures |Prefix(a, k)| + |a[k]| <= |Flatten(a)|
    ensures Flatten(a)[|Prefix(a, k)| + lo..|Prefix(a, k)| + hi] == a[k][lo..hi]
  {
    FlattenAt(a, k);
    PrefixAgree(a, a[..k], k);
    SliceMiddle(Flatten(a[..k]), a[k], Flatten(a[k + 1..]), lo, hi);
  }

  lemma FlattenCons2(s: seq<byte>, t: seq<byte>, a: seq<seq<byte>>)
    ensures Flatten([s, t] + a) == s + t + Flatten(a)
  {
    assert [s, t] + a == [s] + ([t] + a);
    FlattenCons(s, [t] + a);
    FlattenCons(t, a);
  }

  lemma Regroup(x: seq<byte>, u: seq<byte>, v: seq<byte>, z: seq<byte>)
    ensures x + (u + v) + z == x + u + v + z
  {
  }

  // Pulling the first k pieces and r bytes of the next into one piece changes nothing.
  lemma FlattenPull(a: seq<seq<byte>>, k: nat, r: nat)
    requires k < |a| && r <= |a[k]|
    ensures Flatten([Prefix(a, k) + a[k][..r], a[k][r..]] + a[k + 1..]) == Flatten(a)
  {
    hide Flatten, Prefix;
    var u, v := a[k][..r], a[k][r..];
    FlattenCons2(Prefix(a, k) + u, v, a[k + 1..]);
    FlattenAt(a, k);
    FlattenDrop(a, k);
    assert a[k] == u + v;
    Regroup(Prefix(a, k), u, v, Flatten(a[k + 1..]));
  }
}
