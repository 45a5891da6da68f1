/** Lists of values in a byte stream: printed one after the other, read n at a time, read
    behind a count, or read to the end of the input. */
module Lists {
  import opened Bytes

  predicate NoDuplicates<T(==)>(s: seq<T>) {
    forall i, j :: 0 <= i < j < |s| ==> s[i] != s[j]
  }

  // -------------------------------------------------------------------- printing

  function PrintMany<T>(print1: T -> seq<byte>, xs: seq<T>): seq<byte> {
    if xs == [] then [] else print1(xs[0]) + PrintMany(print1, xs[1..])
  }

  lemma {:induction false} PrintAppend<T>(print1: T -> seq<byte>, a: seq<T>, b: seq<T>)
    ensures PrintMany(print1, a + b) == PrintMany(print1, a) + PrintMany(print1, b)
    decreases |a|
  {
    if a == [] {
      assert a + b == b;
    } else {
      assert (a + b)[1..] == a[1..] + b;
      PrintAppend(print1, a[1..], b);
      Assoc(print1(a[0]), PrintMany(print1, a[1..]), PrintMany(print1, b));
    }
  }

  lemma PrintOne<T>(print1: T -> seq<byte>, x: T)
    ensures PrintMany(print1, [x]) == print1(x)
  {
    assert [x][1..] == [] && print1(x) + [] == print1(x);
  }

  /** One value more. */
  lemma PrintNext<T>(print1: T -> seq<byte>, xs: seq<T>, i: nat)
    requires i < |xs|
    ensures PrintMany(print1, xs[..i + 1]) == PrintMany(print1, xs[..i]) + print1(xs[i])
  {
    assert xs[..i + 1] == xs[..i] + [xs[i]];
    PrintAppend(print1, xs[..i], [xs[i]]);
    PrintOne(print1, xs[i]);
  }

  /** Every value fits into the whole. */
  lemma {:induction false} PartFits<T>(print1: T -> seq<byte>, xs: seq<T>, i: nat)
    requires i < |xs|
    ensures |print1(xs[i])| <= |PrintMany(print1, xs)|
  {
    if i > 0 {
      assert xs[1..][i - 1] == xs[i];
      PartFits(print1, xs[1..], i - 1);
    }
  }

  method SerializeMany<T>(print1: T -> seq<byte>, xs: seq<T>) returns (out: seq<byte>)
    ensures out == PrintMany(print1, xs)
  {
    out := [];
    var rest := xs;
    while rest != []
      invariant out + PrintMany(print1, rest) == PrintMany(print1, xs)
    {
      Assoc(out, print1(rest[0]), PrintMany(print1, rest[1..]));
      out := out + print1(rest[0]);
      rest := rest[1..];
    }
  }

  // --------------------------------------------------------------------- reading

  /** Reads one value: the value and the input behind it. */
  type Reader<!T> = seq<byte> -> Result<(T, seq<byte>)>

  /** n values read one after the other, and the input behind them. */
  function ReadMany<T>(read: Reader<T>, b: seq<byte>, n: nat): Result<(seq<T>, seq<byte>)>
    decreases n
  {
    if n == 0 then Ok(([], b))
    else match read(b)
      case Err(e) => Err(e)
      case Ok((x, b1)) => Before([x], ReadMany(read, b1, n - 1))
  }

  /** A count of one byte and that many values. */
  function ReadCounted<T>(read: Reader<T>, b: seq<byte>): Result<(seq<T>, seq<byte>)> {
    if b == [] then Err(Overrun) else ReadMany(read, b[1..], b[0])
  }

  /** What is read leaves less input behind. */
  ghost predicate Shrinks<T(!new)>(read: Reader<T>) {
    forall b: seq<byte> :: read(b).Ok? ==> |read(b).value.1| < |b|
  }

  /** Values up to the end of the input. */
  function ReadAll<T(!new)>(read: Reader<T>, b: seq<byte>): Result<(seq<T>, seq<byte>)>
    requires Shrinks(read)
    decreases |b|
  {
    if b == [] then Ok(([], b))
    else match read(b)
      case Err(e) => Err(e)
      case Ok((x, b1)) => Before([x], ReadAll(read, b1))
  }

  /** The values so far, in front of those read next. */
  function Before<T>(a: seq<T>, r: Result<(seq<T>, seq<byte>)>): Result<(seq<T>, seq<byte>)> {
    match r case Err(e) => Err(e) case Ok((more, rest)) => Ok((a + more, rest))
  }

  lemma BeforeNone<T>(r: Result<(seq<T>, seq<byte>)>)
    ensures Before([], r) == r
  {
    if r.Ok? {
      assert [] + r.value.0 == r.value.0;
    }
  }

  lemma BeforeEnd<T>(a: seq<T>, rest: seq<byte>)
    ensures Before(a, Ok(([], rest))) == Ok((a, rest))
  {
    assert a + [] == a;
  }

  lemma BeforeTwice<T>(a: seq<T>, b: seq<T>, r: Result<(seq<T>, seq<byte>)>)
    ensures Before(a, Before(b, r)) == Before(a + b, r)
  {
    if r.Ok? {
      Assoc(a, b, r.value.0);
    }
  }

  method ParseMany<T>(read: Reader<T>, b: seq<byte>, n: nat) returns (r: Result<(seq<T>, seq<byte>)>)
    ensures r == ReadMany(read, b, n)
  {
    var xs: seq<T> := [];
    var rest, left := b, n;
    BeforeNone(ReadMany(read, b, n));
    while left > 0
      invariant Before(xs, ReadMany(read, rest, left)) == ReadMany(read, b, n)
    {
      var next := read(rest);
      if next.Err? {
        return Err(next.error);
      }
      BeforeTwice(xs, [next.value.0], ReadMany(read, next.value.1, left - 1));
      xs, rest, left := xs + [next.value.0], next.value.1, left - 1;
    }
    BeforeEnd(xs, rest);
    r := Ok((xs, rest));
  }

  method ParseCounted<T>(read: Reader<T>, b: seq<byte>) returns (r: Result<(seq<T>, seq<byte>)>)
    ensures r == ReadCounted(read, b)
  {
    if b == [] {
      return Err(Overrun);
    }
    r := ParseMany(read, b[1..], b[0]);
  }

  method ParseAll<T(!new)>(read: Reader<T>, b: seq<byte>) returns (r: Result<(seq<T>, seq<byte>)>)
    requires Shrinks(read)
    ensures r == ReadAll(read, b)
  {
    var xs: seq<T> := [];
    var rest := b;
    BeforeNone(ReadAll(read, b));
    while rest != []
      invariant Before(xs, ReadAll(read, rest)) == ReadAll(read, b)
      decreases |rest|
    {
      var next := read(rest);
      if next.Err? {
        return Err(next.error);
      }
      BeforeTwice(xs, [next.value.0], ReadAll(read, next.value.1));
      xs, rest := xs + [next.value.0], next.value.1;
    }
    BeforeEnd(xs, rest);
    r := Ok((xs, rest));
  }

  // ----------------------------------------------------------------- round trips

  /** The values of xs are read back from any place in the input. */
  ghost predicate Inverse<T(!new)>(read: Reader<T>, print1: T -> seq<byte>, xs: seq<T>) {
    forall i, r: seq<byte> :: 0 <= i < |xs| ==> read(print1(xs[i]) + r) == Ok((xs[i], r))
  }

  lemma InverseTail<T(!new)>(read: Reader<T>, print1: T -> seq<byte>, xs: seq<T>)
    requires Inverse(read, print1, xs) && xs != []
    ensures Inverse(read, print1, xs[1..])
  {
    forall i, r: seq<byte> | 0 <= i < |xs[1..]| ensures read(print1(xs[1..][i]) + r) == Ok((xs[1..][i], r)) {
      assert xs[1..][i] == xs[i + 1];
    }
  }

  lemma {:induction false} ManyRoundTrip<T(!new)>(read: Reader<T>, print1: T -> seq<byte>, xs: seq<T>, rest: seq<byte>)
    requires Inverse(read, print1, xs)
    ensures ReadMany(read, PrintMany(print1, xs) + rest, |xs|) == Ok((xs, rest))
    decreases |xs|
  {
    if xs == [] {
      assert PrintMany(print1, xs) + rest == rest;
    } else {
      var more := PrintMany(print1, xs[1..]) + rest;
      Assoc(print1(xs[0]), PrintMany(print1, xs[1..]), rest);
      assert read(print1(xs[0]) + more) == Ok((xs[0], more));
      InverseTail(read, print1, xs);
      ManyRoundTrip(read, print1, xs[1..], rest);
      assert xs == [xs[0]] + xs[1..];
    }
  }

  lemma {:induction false} CountedRoundTrip<T(!new)>(read: Reader<T>, print1: T -> seq<byte>, xs: seq<T>,
                                                     rest: seq<byte>)
    requires |xs| < 256 && Inverse(read, print1, xs)
    ensures ReadCounted(read, [|xs| % 256] + (PrintMany(print1, xs) + rest)) == Ok((xs, rest))
  {
    ManyRoundTrip(read, print1, xs, rest);
    DropPrefix([|xs| % 256], PrintMany(print1, xs) + rest);
  }

  /** Values that are read back, in front of anything. */
  lemma {:induction false} AllBefore<T(!new)>(read: Reader<T>, print1: T -> seq<byte>, xs: seq<T>, b: seq<byte>)
    requires Shrinks(read) && Inverse(read, print1, xs)
    ensures ReadAll(read, PrintMany(print1, xs) + b) == Before(xs, ReadAll(read, b))
    decreases |xs|
  {
    if xs == [] {
      assert PrintMany(print1, xs) + b == b;
      BeforeNone(ReadAll(read, b));
    } else {
      var more := PrintMany(print1, xs[1..]) + b;
      Assoc(print1(xs[0]), PrintMany(print1, xs[1..]), b);
      assert read(print1(xs[0]) + more) == Ok((xs[0], more));
      InverseTail(read, print1, xs);
      AllBefore(read, print1, xs[1..], b);
      BeforeTwice([xs[0]], xs[1..], ReadAll(read, b));
      assert xs == [xs[0]] + xs[1..];
    }
  }

  lemma {:induction false} AllRoundTrip<T(!new)>(read: Reader<T>, print1: T -> seq<byte>, xs: seq<T>)
    requires Shrinks(read) && Inverse(read, print1, xs)
    ensures ReadAll(read, PrintMany(print1, xs)) == Ok((xs, []))
  {
    AllBefore(read, print1, xs, []);
    assert PrintMany(print1, xs) + [] == PrintMany(print1, xs);
    BeforeEnd(xs, []);
  }

  /** What is read is what the input consists of. */
  ghost predicate Faithful<T(!new)>(read: Reader<T>, print1: T -> seq<byte>) {
    forall b: seq<byte> :: read(b).Ok? ==> print1(read(b).value.0) + read(b).value.1 == b
  }

  lemma {:induction false} AllUnread<T(!new)>(read: Reader<T>, print1: T -> seq<byte>, b: seq<byte>)
    requires Shrinks(read) && Faithful(read, print1) && ReadAll(read, b).Ok?
    ensures PrintMany(print1, ReadAll(read, b).value.0) == b
    decreases |b|
  {
    if b != [] {
      var (x, b1) := read(b).value;
      AllUnread(read, print1, b1);
      assert ReadAll(read, b).value.0 == [x] + ReadAll(read, b1).value.0;
      assert ([x] + ReadAll(read, b1).value.0)[1..] == ReadAll(read, b1).value.0;
    }
  }
}
