// The random number generator's cipher state, and numbers below a bound without bias (arc4random.c).
module Arc4 {
  const TWO_32: int := 0x1_0000_0000

  type Byte = b: int | 0 <= b < 256

  // struct arc4_stream, as a value.
  datatype Stream = Stream(i: Byte, j: Byte, s: seq<Byte>)

  // unsigned char arithmetic
  function Sum(a: int, b: int, c: int): Byte {
    (a + b + c) % 256
  }

  lemma SumCommutes(a: int, b: int)
    ensures Sum(a, b, 0) == Sum(b, a, 0)
  {
  }

  ghost predicate IsPermutation(s: seq<Byte>) {
    |s| == 256 && multiset(s) == multiset(seq(256, n requires 0 <= n < 256 => n as Byte))
  }

  function Swapped(s: seq<Byte>, i: Byte, j: Byte): (r: seq<Byte>)
    requires |s| == 256
    ensures |r| == 256
  {
    s[i := s[j]][j := s[i]]
  }

  // One round: i moves on, j is stirred by the state and by a byte of input.
  function Round(x: Stream, input: Byte): (y: Stream)
    requires |x.s| == 256
    ensures |y.s| == 256
  {
    var i := Sum(x.i, 1, 0);
    var j := Sum(x.j, x.s[i], input);
    Stream(i, j, Swapped(x.s, i, j))
  }

  function Rounds(x: Stream, data: seq<Byte>, n: nat): (y: Stream)
    requires |x.s| == 256 && |data| > 0
    ensures |y.s| == 256
  {
    if n == 0 then x else Round(Rounds(x, data, n - 1), data[(n - 1) % |data|])
  }

  // arc4_addrandom: 256 rounds from one place back.
  function Added(x: Stream, data: seq<Byte>): (y: Stream)
    requires |x.s| == 256 && |data| > 0
    ensures |y.s| == 256
  {
    var y := Rounds(x.(i := Sum(x.i, -1, 0)), data, 256);
    y.(j := y.i)
  }

  // The byte a state gives.
  function Output(x: Stream): Byte
    requires |x.s| == 256
  {
    x.s[Sum(x.s[x.i], x.s[x.j], 0)]
  }

  class Generator {
    var i: Byte
    var j: Byte
    const s: array<Byte>

    ghost predicate Valid()
      reads this, s
    {
      s.Length == 256 && IsPermutation(s[..])
    }

    ghost function State(): Stream
      reads this, s
    {
      Stream(i, j, s[..])
    }

    // arc4_init
    constructor ()
      ensures Valid() && fresh(s) && State() == Stream(0, 0, seq(256, n requires 0 <= n < 256 => n as Byte))
    {
      s := new Byte[256](n requires 0 <= n < 256 => n as Byte);
      i, j := 0, 0;
      new;
      assert s[..] == seq(256, n requires 0 <= n < 256 => n as Byte);
    }

    method AddRandom(data: seq<Byte>)
      requires Valid() && |data| > 0
      modifies this, s
      ensures Valid() && State() == Added(old(State()), data)
    {
      hide IsPermutation, Sum;
      i := Sum(i, -1, 0);
      ghost var start := State();
      for n := 0 to 256
        invariant Valid() && State() == Rounds(start, data, n)
      {
        ghost var before := s[..];
        i := Sum(i, 1, 0);
        var si := s[i];
        j := Sum(j, si, data[n % |data|]);
        s[i] := s[j];
        s[j] := si;
        assert s[..] == Swapped(before, i, j);
        SwappedKeeps(before, i, j);
      }
      j := i;
    }

    // arc4_getbyte
    method GetByte() returns (b: Byte)
      requires Valid()
      modifies this, s
      ensures Valid() && State() == Round(old(State()), 0) && b == Output(State())
      ensures i as int == (old(i) as int + 1) % 256 && j as int == (old(j) as int + old(s[..])[i] as int) % 256
      ensures s[i] == old(s[..])[j] && s[j] == old(s[..])[i] && forall k :: 0 <= k < 256 && k != i as int && k != j as int ==> s[k] == old(s[k])
      ensures b == s[(s[i] as int + s[j] as int) % 256]
    {
      hide IsPermutation, Sum;
      ghost var x, before := State(), s[..];
      i := Sum(i, 1, 0);
      var si := s[i];
      j := Sum(j, si, 0);
      var sj := s[j];
      s[i] := sj;
      s[j] := si;
      assert s[..] == Swapped(before, i, j);
      SwappedKeeps(before, i, j);
      SumCommutes(si, sj);
      NextByte(x);
      b := s[Sum(si, sj, 0)];
    }

    // arc4_getword
    method GetWord() returns (w: nat)
      requires Valid()
      modifies this, s
      ensures Valid() && State() == Rounds(old(State()), [0], 4)
      ensures var x := old(State());
        w == Big(Output(Rounds(x, [0], 1)), Output(Rounds(x, [0], 2)), Output(Rounds(x, [0], 3)), Output(Rounds(x, [0], 4)))
    {
      hide IsPermutation, Round, Rounds, Output, Big;
      ghost var x := State();
      FourRounds(x);
      var b0 := GetByte();
      var b1 := GetByte();
      var b2 := GetByte();
      var b3 := GetByte();
      w := Big(b0, b1, b2, b3);
    }
  }

  // The 256 rounds of arc4_addrandom, one by one: i goes through the places from its own on, j adds up the bytes
  // found there and those of the input, taken round and round, and the bytes in both places are exchanged.
  lemma Stirs(x: Stream, data: seq<Byte>) returns (t: seq<Stream>)
    requires |x.s| == 256 && |data| > 0
    ensures |t| == 257 && t[0].s == x.s && t[0].j == x.j && t[0].i as int == (x.i as int + 255) % 256
    ensures forall n {:trigger t[n]} :: 0 <= n < 256 ==> Stirred(t[n], t[n + 1], data[n % |data|])
    ensures Added(x, data) == Stream(t[256].i, t[256].i, t[256].s)
  {
    hide Round;
    var start := x.(i := Sum(x.i, -1, 0));
    t := seq(257, n requires 0 <= n => Rounds(start, data, n));
    forall n | 0 <= n < 256 ensures Stirred(t[n], t[n + 1], data[n % |data|]) {
      RoundStirs(t[n], data[n % |data|]);
    }
  }

  ghost predicate Stirred(x: Stream, y: Stream, input: Byte) {
    && |x.s| == 256 && |y.s| == 256
    && y.i as int == (x.i as int + 1) % 256 && y.j as int == (x.j as int + x.s[y.i] as int + input as int) % 256
    && y.s[y.i] == x.s[y.j] && y.s[y.j] == x.s[y.i] && forall k :: 0 <= k < 256 && k != y.i as int && k != y.j as int ==> y.s[k] == x.s[k]
  }

  lemma RoundStirs(x: Stream, input: Byte)
    requires |x.s| == 256
    ensures Stirred(x, Round(x, input), input)
  {
  }

  // One round without input, and the byte it gives.
  lemma NextByte(x: Stream)
    requires |x.s| == 256
    ensures Stirred(x, Round(x, 0), 0)
    ensures var y := Round(x, 0); Output(y) == y.s[(y.s[y.i] as int + y.s[y.j] as int) % 256]
  {
    RoundStirs(x, 0);
  }

  // The bytes of a word, from the highest on.
  lemma BigBytes(b0: Byte, b1: Byte, b2: Byte, b3: Byte)
    ensures var w := Big(b0, b1, b2, b3);
      w / 0x100_0000 == b0 as int && w / 0x1_0000 % 0x100 == b1 as int && w / 0x100 % 0x100 == b2 as int && w % 0x100 == b3 as int
  {
    var top := b0 as int * 0x100 + b1 as int;
    LastByte(b0 as int, b1);
    LastByte(top, b2);
    LastByte(top * 0x100 + b2 as int, b3);
  }

  lemma LastByte(n: nat, b: Byte)
    ensures var w := n * 0x100 + b as int;
      w / 0x100 == n && w % 0x100 == b as int && w / 0x1_0000 == n / 0x100 && w / 0x100_0000 == n / 0x1_0000
  {
    assert (n * 0x100 + b as int) / 0x100 == n;
  }

  // Four bytes, the first the highest.
  function Big(b0: Byte, b1: Byte, b2: Byte, b3: Byte): (w: nat)
    ensures w < TWO_32
  {
    b0 as int * 0x100_0000 + b1 as int * 0x1_0000 + b2 as int * 0x100 + b3 as int
  }

  lemma FourRounds(x: Stream)
    requires |x.s| == 256
    ensures Rounds(x, [0], 1) == Round(x, 0)
    ensures Rounds(x, [0], 2) == Round(Round(x, 0), 0)
    ensures Rounds(x, [0], 3) == Round(Round(Round(x, 0), 0), 0)
    ensures Rounds(x, [0], 4) == Round(Round(Round(Round(x, 0), 0), 0), 0)
  {
    assert Rounds(x, [0], 0) == x;
    assert Rounds(x, [0], 1) == Round(x, 0);
    assert Rounds(x, [0], 2) == Round(Rounds(x, [0], 1), 0);
    assert Rounds(x, [0], 3) == Round(Rounds(x, [0], 2), 0);
  }

  lemma SwappedKeeps(s: seq<Byte>, i: Byte, j: Byte)
    requires IsPermutation(s)
    ensures IsPermutation(Swapped(s, i, j))
  {
    assert multiset(Swapped(s, i, j)) == multiset(s);
  }

  lemma SwappedBack(s: seq<Byte>, i: Byte, j: Byte)
    requires |s| == 256
    ensures Swapped(Swapped(s, i, j), i, j) == s
  {
  }

  lemma Undone(a: Byte, b: Byte, x: Byte, y: Byte)
    ensures Sum(a, x, y) == Sum(b, x, y) ==> a == b
  {
  }

  // Nothing is lost in a round: different states stay different, so a run of bytes never funnels
  // states together.
  lemma RoundInjective(x: Stream, y: Stream, input: Byte)
    requires |x.s| == 256 && |y.s| == 256 && Round(x, input) == Round(y, input)
    ensures x == y
  {
    hide Sum;
    var z := Round(x, input);
    SwappedBack(x.s, z.i, z.j);
    SwappedBack(y.s, z.i, z.j);
    Undone(x.i, y.i, 1, 0);
    Undone(x.j, y.j, x.s[z.i], input);
  }

  lemma {:induction false} RoundsInjective(x: Stream, y: Stream, data: seq<Byte>, n: nat)
    requires |x.s| == 256 && |y.s| == 256 && |data| > 0 && Rounds(x, data, n) == Rounds(y, data, n)
    ensures x == y
  {
    if n > 0 {
      RoundInjective(Rounds(x, data, n - 1), Rounds(y, data, n - 1), data[(n - 1) % |data|]);
      RoundsInjective(x, y, data, n - 1);
    }
  }

  // A round taken back.
  function Unround(y: Stream, input: Byte): (x: Stream)
    requires |y.s| == 256
    ensures |x.s| == 256
  {
    var s := Swapped(y.s, y.i, y.j);
    Stream(Sum(y.i, -1, 0), Difference(y.j, s[y.i], input), s)
  }

  function Difference(a: int, b: int, c: int): Byte {
    (a - b - c) % 256
  }

  lemma Turns(x: int, k: int)
    requires 0 <= x - 256 * k < 256
    ensures x % 256 == x - 256 * k
  {
  }

  lemma Restored(i: Byte, j: Byte, b: Byte, c: Byte)
    ensures Sum(Sum(i, -1, 0), 1, 0) == i && Sum(Sum(i, 1, 0), -1, 0) == i
    ensures Sum(Difference(j, b, c), b, c) == j
  {
    Turns(i as int - 1, if i == 0 then -1 else 0);
    Turns(i as int + 1, if i == 255 then 1 else 0);
    Turns(Sum(i, -1, 0) as int + 1, if i == 0 then 1 else 0);
    Turns(Sum(i, 1, 0) as int - 1, if i == 255 then -1 else 0);
    var d := j as int - b as int - c as int;
    var k := if d >= 0 then 0 else if d >= -256 then -1 else -2;
    Turns(d, k);
    Turns(Difference(j, b, c) as int + b as int + c as int, -k);
  }

  lemma UnroundIs(y: Stream, input: Byte)
    requires |y.s| == 256
    ensures Round(Unround(y, input), input) == y
  {
    hide Sum, Difference;
    SwappedBack(y.s, y.i, y.j);
    Restored(y.i, y.j, Swapped(y.s, y.i, y.j)[y.i], input);
  }

  function Unrounds(y: Stream, data: seq<Byte>, n: nat): (x: Stream)
    requires |y.s| == 256 && |data| > 0
    ensures |x.s| == 256
    decreases n
  {
    if n == 0 then y else Unrounds(Unround(y, data[(n - 1) % |data|]), data, n - 1)
  }

  // Any state is reached by any number of rounds.
  lemma {:induction false} UnroundsIs(y: Stream, data: seq<Byte>, n: nat)
    requires |y.s| == 256 && |data| > 0
    ensures Rounds(Unrounds(y, data, n), data, n) == y
    decreases n
  {
    if n > 0 {
      var input := data[(n - 1) % |data|];
      UnroundIs(y, input);
      UnroundsIs(Unround(y, input), data, n - 1);
    }
  }

  // The state that ends its rounds with the place j.
  function Source(z: Stream, j: Byte, data: seq<Byte>): (x: Stream)
    requires |z.s| == 256 && |data| > 0
    ensures |x.s| == 256
  {
    var x := Unrounds(z.(j := j), data, 256);
    x.(i := Sum(x.i, 1, 0))
  }

  // arc4_addrandom does lose something: at its end j is forgotten. The states it takes to z are
  // the sources of z, one for each j, and no two of them are the same.
  lemma AddedFrom(x: Stream, z: Stream, data: seq<Byte>)
    requires |x.s| == 256 && |z.s| == 256 && |data| > 0 && z.j == z.i
    ensures Added(x, data) == z <==> exists j: Byte :: x == Source(z, j, data)
    ensures forall j: Byte, k: Byte :: Source(z, j, data) == Source(z, k, data) ==> j == k
  {
    hide Rounds, Unrounds, Sum;
    forall j: Byte ensures Rounds(Unrounds(z.(j := j), data, 256), data, 256) == z.(j := j) {
      UnroundsIs(z.(j := j), data, 256);
    }
    var start := x.(i := Sum(x.i, -1, 0));
    var y := Rounds(start, data, 256);
    forall j: Byte, k: Byte | Source(z, j, data) == Source(z, k, data) ensures j == k {
      SourceFrom(z, j, data);
      SourceFrom(z, k, data);
    }
    if Added(x, data) == z {
      assert y == z.(j := y.j);
      RoundsInjective(start, Unrounds(y, data, 256), data, 256);
      Restored(x.i, x.j, 0, 0);
      assert x == Source(z, y.j, data);
    }
    if j: Byte :| x == Source(z, j, data) {
      SourceFrom(z, j, data);
    }
  }

  // What happens to a source.
  lemma SourceFrom(z: Stream, j: Byte, data: seq<Byte>)
    requires |z.s| == 256 && |data| > 0
    ensures var x := Source(z, j, data); Rounds(x.(i := Sum(x.i, -1, 0)), data, 256) == z.(j := j)
  {
    hide Rounds, Unrounds, Sum;
    var x := Unrounds(z.(j := j), data, 256);
    UnroundsIs(z.(j := j), data, 256);
    Restored(x.i, x.j, 0, 0);
    assert Source(z, j, data).(i := Sum(Source(z, j, data).i, -1, 0)) == x;
  }

  datatype Cmd = Add(data: seq<Byte>) | Get

  // The state after some commands, from that of a new generator.
  function After(cmds: seq<Cmd>): (x: Stream)
    requires forall c :: c in cmds && c.Add? ==> |c.data| > 0
    ensures |x.s| == 256
  {
    if cmds == [] then Stream(0, 0, seq(256, n requires 0 <= n < 256 => n as Byte))
    else
      var x, c := After(cmds[..|cmds| - 1]), cmds[|cmds| - 1];
      match c
      case Add(data) => assert c in cmds; Added(x, data)
      case Get => Round(x, 0)
  }

  // The bytes they give.
  function Given(cmds: seq<Cmd>): seq<Byte>
    requires forall c :: c in cmds && c.Add? ==> |c.data| > 0
  {
    if cmds == [] then []
    else Given(cmds[..|cmds| - 1]) + if cmds[|cmds| - 1].Get? then [Output(After(cmds))] else []
  }

  // Any run of adding and getting gives the bytes of the cipher, and its state stays a permutation of
  // the 256 bytes.
  method Run(cmds: seq<Cmd>) returns (g: Generator, out: seq<Byte>)
    requires forall c :: c in cmds && c.Add? ==> |c.data| > 0
    ensures fresh(g) && fresh(g.s) && g.Valid() && g.State() == After(cmds) && out == Given(cmds)
    ensures forall v: Byte :: v in g.s[..]
  {
    hide IsPermutation, Round, Added, Output;
    g := new Generator();
    out := [];
    for k := 0 to |cmds|
      invariant fresh(g) && fresh(g.s) && g.Valid() && g.State() == After(cmds[..k]) && out == Given(cmds[..k])
    {
      assert cmds[..k + 1][..k] == cmds[..k];
      if cmds[k].Add? {
        assert cmds[k] in cmds;
        g.AddRandom(cmds[k].data);
      } else {
        var b := g.GetByte();
        out := out + [b];
      }
    }
    assert cmds[..|cmds|] == cmds;
    AllThere(g.s[..]);
  }

  lemma AllThere(s: seq<Byte>)
    requires IsPermutation(s)
    ensures forall v: Byte :: v in s
  {
    var id := seq(256, n requires 0 <= n < 256 => n as Byte);
    forall v: Byte ensures v in s {
      assert id[v] == v;
      assert v in multiset(s);
    }
  }

  // 32-bit arithmetic.
  function Word(x: int): (w: nat)
    ensures w < TWO_32
  {
    x % TWO_32
  }

  function Complement(x: nat): nat
    requires x < TWO_32
  {
    TWO_32 - 1 - x
  }

  // `min` of arc4random_uniform.
  function Least(bound: nat): nat
    requires 2 <= bound < TWO_32
  {
    if bound > 0x8000_0000 then Word(1 + Complement(bound))
    else Word(Word(0xffff_ffff - Word(bound * 2)) + 1) % bound
  }

  // Both branches compute 2^32 mod bound.
  lemma LeastExact(bound: nat)
    requires 2 <= bound < TWO_32
    ensures Least(bound) == TWO_32 % bound
  {
    hide Word;
    if bound > 0x8000_0000 {
      Small(TWO_32 - bound);
      ModOf(TWO_32, 1, bound, TWO_32 - bound);
    } else if bound == 0x8000_0000 {
      assert Word(TWO_32) == 0 by { Wraps(); }
      Small(0xffff_ffff);
    } else {
      Small(bound * 2);
      Small(0xffff_ffff - bound * 2);
      Small(TWO_32 - bound * 2);
      ModLess(TWO_32 - bound, bound);
      ModLess(TWO_32, bound);
    }
  }

  lemma Small(x: int)
    requires 0 <= x < TWO_32
    ensures Word(x) == x
  {
  }

  lemma Wraps()
    ensures Word(TWO_32) == 0
  {
  }

  lemma ModLess(x: int, m: int)
    requires m > 0
    ensures (x - m) % m == x % m
  {
    var q, r := x / m, x % m;
    assert x - m == (q - 1) * m + r;
    ModOf(x - m, q - 1, m, r);
  }

  // More than half of the words are accepted.
  lemma MostAccepted(bound: nat)
    requires 2 <= bound < TWO_32
    ensures Least(bound) < TWO_32 / 2
  {
    hide Word;
    LeastExact(bound);
    if bound > TWO_32 / 2 {
      ModOf(TWO_32, 1, bound, TWO_32 - bound);
    } else if bound == TWO_32 / 2 {
      ModOf(TWO_32, 2, bound, 0);
    }
  }

  // The accepted words that give a residue.
  ghost function Accepted(bound: nat, residue: nat): set<int>
    requires 2 <= bound < TWO_32
  {
    set x: int | Least(bound) <= x < TWO_32 && x % bound == residue
  }

  // No bias: every number below the bound is given by the same number of accepted words.
  lemma Unbiased(bound: nat, residue: nat)
    requires 2 <= bound < TWO_32 && residue < bound
    ensures |Accepted(bound, residue)| == TWO_32 / bound
  {
    hide Least;
    LeastExact(bound);
    var k, least := TWO_32 / bound, Least(bound);
    var all := k * bound;
    assert least + all == TWO_32;
    assert Accepted(bound, residue) == Residues(least, k, bound, residue);
    EvenlySpread(Least(bound), k, bound, residue);
  }

  ghost function Residues(from: nat, k: nat, bound: nat, residue: nat): set<int>
    requires bound > 0
  {
    set x: int | from <= x < from + k * bound && x % bound == residue
  }

  lemma {:induction false} EvenlySpread(from: nat, k: nat, bound: nat, residue: nat)
    requires residue < bound
    ensures |Residues(from, k, bound, residue)| == k
  {
    if k == 0 {
      assert Residues(from, 0, bound, residue) == {};
    } else {
      EvenlySpread(from, k - 1, bound, residue);
      var lo := from + (k - 1) * bound;
      var x := TheOne(lo, bound, residue);
      assert from + k * bound == lo + bound;
      assert Residues(from, k, bound, residue) == Residues(from, k - 1, bound, residue) + {x};
    }
  }

  // One of any `bound` numbers in a row has the residue.
  lemma TheOne(lo: nat, bound: nat, residue: nat) returns (x: int)
    requires residue < bound
    ensures lo <= x < lo + bound && x % bound == residue
    ensures forall y :: lo <= y < lo + bound && y % bound == residue ==> y == x
  {
    var base := lo / bound * bound;
    x := base + residue + if residue >= lo - base then 0 else bound;
    ModOf(x, lo / bound + (if residue >= lo - base then 0 else 1), bound, residue);
    forall y | lo <= y < lo + bound && y % bound == residue ensures y == x {
      SameResidue(x, y, bound);
    }
  }

  lemma SameResidue(x: int, y: int, m: int)
    requires m > 0 && x % m == y % m && -m < x - y < m
    ensures x == y
  {
    assert x - y == (x / m - y / m) * m;
    SmallMultiple(x - y, x / m - y / m, m);
  }

  lemma ModOf(x: int, q: int, m: int, r: int)
    requires 0 <= r < m && x == q * m + r
    ensures x % m == r
  {
    var p := x / m;
    SmallMultiple(x % m - r, q - p, m);
  }

  lemma SmallMultiple(d: int, q: int, m: int)
    requires m > 0 && d == q * m && -m < d < m
    ensures d == 0
  {
    assert q >= 1 ==> q * m >= m;
    assert q <= -1 ==> q * m <= -m;
  }

  // arc4random_uniform, given the words that arc4random would return one after another. It gives
  // the residue of the first that is accepted.
  method Uniform(bound: nat, words: seq<nat>) returns (r: nat, used: nat)
    requires bound < TWO_32 && forall k :: 0 <= k < |words| ==> words[k] < TWO_32
    ensures bound < 2 ==> r == 0 && used == 0
    ensures bound >= 2 ==> used <= |words| && forall k :: 0 <= k < used - 1 ==> words[k] < TWO_32 % bound
    ensures bound >= 2 && 0 < used && words[used - 1] >= TWO_32 % bound ==> r == words[used - 1] % bound && words[used - 1] in Accepted(bound, r)
    ensures bound >= 2 && (exists k :: 0 <= k < |words| && words[k] >= TWO_32 % bound) ==> used > 0 && words[used - 1] >= TWO_32 % bound
  {
    if bound < 2 {
      return 0, 0;
    }
    var least;
    if bound > 0x8000_0000 {
      least := Word(1 + Complement(bound));
    } else {
      least := Word(Word(0xffff_ffff - Word(bound * 2)) + 1) % bound;
    }
    LeastExact(bound);
    r, used := 0, 0;
    while used < |words|
      invariant used <= |words| && forall k :: 0 <= k < used ==> words[k] < least
    {
      var w := words[used];
      used := used + 1;
      if w >= least {
        return w % bound, used;
      }
    }
  }
}
