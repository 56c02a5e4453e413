/** The first occurrence of a byte. */
module Bytes {
  import opened Common

  const LF: byte := 10

  /** Index of the first occurrence, by a plain scan. */
  function Position(b: seq<byte>, c: byte): (r: Option<nat>)
    ensures r.Some? ==> r.value < |b|
  {
    if b == [] then None
    else if b[0] == c then Some(0)
    else
      match Position(b[1..], c)
      case None => None
      case Some(i) => Some(i + 1)
  }

  lemma {:induction false} PositionSpec(b: seq<byte>, c: byte)
    ensures match Position(b, c)
            case None => c !in b
            case Some(i) => i < |b| && b[i] == c && c !in b[..i]
  {
    if b != [] && b[0] != c {
      PositionSpec(b[1..], c);
      var p := Position(b[1..], c);
      if p.Some? { assert b[..p.value + 1] == [b[0]] + b[1..][..p.value]; }
    }
  }

  lemma {:induction false} PositionUnique(b: seq<byte>, c: byte, i: nat)
    requires i < |b| && b[i] == c && c !in b[..i]
    ensures Position(b, c) == Some(i)
  {
    if i > 0 {
      assert b[0] == b[..i][0];
      assert b[1..][..i - 1] == b[..i][1..];
      PositionUnique(b[1..], c, i - 1);
    }
  }

  lemma {:induction false} PositionOfConcat(a: seq<byte>, b: seq<byte>, c: byte)
    ensures Position(a + b, c) == match Position(a, c)
            case Some(i) => Some(i)
            case None => match Position(b, c) case None => None case Some(i) => Some(|a| + i)
  {
    if a == [] {
      assert a + b == b;
    } else {
      assert (a + b)[1..] == a[1..] + b;
      PositionOfConcat(a[1..], b, c);
    }
  }
}
