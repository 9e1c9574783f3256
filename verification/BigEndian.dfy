// Big-endian unsigned integers.
module BigEndian {
  import opened Basics

  function FromBytes(s: seq<byte>): nat {
    if s == [] then 0 else FromBytes(s[..|s| - 1]) * 256 + s[|s| - 1]
  }

  function Power256(n: nat): nat { if n == 0 then 1 else Power256(n - 1) * 256 }

  function ToBytes(v: nat, n: nat): (s: seq<byte>)
    ensures |s| == n
  {
    if n == 0 then [] else ToBytes(v / 256, n - 1) + [v % 256]
  }

  lemma {:induction false} BytesExact(s: seq<byte>)
    ensures FromBytes(s) < Power256(|s|) && ToBytes(FromBytes(s), |s|) == s
  {
    if s != [] {
      BytesExact(s[..|s| - 1]);
    }
  }

  lemma {:induction false} ValueExact(v: nat, n: nat)
    requires v < Power256(n)
    ensures FromBytes(ToBytes(v, n)) == v
  {
    if n > 0 {
      ValueExact(v / 256, n - 1);
      assert ToBytes(v, n)[..n - 1] == ToBytes(v / 256, n - 1);
    }
  }

  lemma {:induction false} ZeroInFront(s: seq<byte>)
    ensures FromBytes([0] + s) == FromBytes(s)
  {
    if s == [] {
      assert ([0] + s)[..0] == [];
    } else {
      assert ([0] + s)[..|s|] == [0] + s[..|s| - 1];
      ZeroInFront(s[..|s| - 1]);
    }
  }

  // Widening an integer pads it with zeros in front.
  lemma {:induction false} Padded(s: seq<byte>, n: nat)
    requires |s| <= n
    ensures FromBytes(s) < Power256(n)
    ensures ToBytes(FromBytes(s), n) == seq(n - |s|, i => 0) + s
    decreases n - |s|
  {
    if |s| == n {
      BytesExact(s);
      assert seq<byte>(0, i => 0) + s == s;
    } else {
      ZeroInFront(s);
      Padded([0] + s, n);
      assert seq<byte>(n - |s|, i => 0) + s == seq<byte>(n - |s| - 1, i => 0) + ([0] + s);
    }
  }
}
