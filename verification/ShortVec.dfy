/** The compact-u16 lengths of the wire format: seven bits a byte, least significant first, in the shortest form. */
module ShortVec {
  import opened Prelude

  function Encode(n: nat): (s: seq<byte>)
    requires n <= 0xFFFF
    ensures 1 <= |s| <= 3
  {
    if n < 128 then [n]
    else if n < 16384 then [128 + n % 128, n / 128]
    else [128 + n % 128, 128 + n / 128 % 128, n / 16384]
  }

  /** The value and the number of bytes read; longer forms of a value than needed are rejected. */
  function Decode(s: seq<byte>): (r: Option<(nat, nat)>)
  {
    if |s| < 1 then None
    else if s[0] < 128 then Some((s[0], 1))
    else if |s| < 2 || s[1] == 0 then None
    else if s[1] < 128 then Some((Low(s[0]) + 128 * s[1] as int, 2))
    else if |s| < 3 || s[2] == 0 || s[2] >= 128 then None
    else
      var n := Low(s[0]) + 128 * Low(s[1]) + 16384 * s[2] as int;
      if n <= 0xFFFF then Some((n, 3)) else None
  }

  /** The seven value bits of a byte that announces another one. */
  function Low(b: byte): nat
    requires b >= 128
  {
    b - 128
  }

  /** A length that stands at `from` is read back with its size. */
  lemma DecodeEncoded(s: seq<byte>, from: nat, n: nat)
    requires n <= 0xFFFF && from + |Encode(n)| <= |s| && s[from..from + |Encode(n)|] == Encode(n)
    ensures Decode(s[from..]) == Some((n, |Encode(n)|))
  {
    var t, e := s[from..], Encode(n);
    forall i | 0 <= i < |e| ensures t[i] == e[i] {
      assert e[i] == s[from..from + |e|][i];
    }
  }

  /** What is read is the only encoding of the value. */
  lemma EncodeDecoded(s: seq<byte>)
    requires Decode(s).Some?
    ensures var (n, k) := Decode(s).value; n <= 0xFFFF && k <= |s| && k == |Encode(n)| && s[..k] == Encode(n)
  {
    if s[0] < 128 {
      assert s[..1] == [s[0]];
    } else if s[1] < 128 {
      assert s[..2] == [s[0], s[1]];
    } else {
      SevenBits(Low(s[0]), Low(s[1]), s[2]);
      assert s[..3] == [s[0], s[1], s[2]];
    }
  }

  lemma SevenBits(a: nat, b: nat, c: nat)
    requires a < 128 && b < 128
    ensures var n := a + 128 * b + 16384 * c; n % 128 == a && n / 128 % 128 == b && n / 16384 == c
  {
    assert (a + 128 * b + 16384 * c) / 128 == b + 128 * c;
  }

  /** A length that is cut short is not read. */
  lemma TruncatedFails(s: seq<byte>, n: nat)
    requires n <= 0xFFFF && s < Encode(n)
    ensures Decode(s) == None
  {
    var e := Encode(n);
    forall i | 0 <= i < |s| ensures s[i] == e[i] {
    }
  }
}
