/** Byte strings, big-endian integers and prefix comparison: what the transaction encoder is built from. */
module ByteStrings {
  import opened Wrappers
  import opened Sequences

  type byte = b: int | 0 <= b < 256
  type Bytes = seq<byte>

  /** Text is represented by its UTF-8 bytes. */
  type Utf8 = Bytes

  /** SHA-256 outputs are 32 bytes (section 6.2 of FIPS 180-4); nothing else is assumed of the hash. */
  type Digest = d: Bytes | |d| == 32 witness seq(32, _ => 0)
  type Hash = Bytes -> Digest

  /** The result of an encoder: None is a rejected promise. */
  type Code = Option<Bytes>

  const TWO_32: nat := 0x1_0000_0000
  const TWO_64: nat := 0x1_0000_0000_0000_0000

  function Pow256(k: nat): (r: nat)
    ensures r > 0
  {
    if k == 0 then 1 else 256 * Pow256(k - 1)
  }

  /** The k low-order bytes of n, most significant first. */
  function BigEndian(n: nat, k: nat): (r: Bytes)
    ensures |r| == k
  {
    if k == 0 then [] else BigEndian(n / 256, k - 1) + [n % 256]
  }

  /** The integer written in these bytes, most significant first. */
  function ValueOf(s: Bytes): nat {
    if s == [] then 0 else 256 * ValueOf(s[..|s| - 1]) + s[|s| - 1]
  }

  lemma {:induction false} BigEndianValue(n: nat, k: nat)
    requires n < Pow256(k)
    ensures ValueOf(BigEndian(n, k)) == n
  {
    if k > 0 {
      var front := BigEndian(n / 256, k - 1);
      BigEndianValue(n / 256, k - 1);
      assert (front + [n % 256])[..k - 1] == front;
    }
  }

  /** DataView.setInt32 and setUint32, big-endian: the value is taken modulo 2^32. */
  function EncodeInt32(n: int): (r: Bytes)
    ensures |r| == 4
  {
    BigEndian(n % TWO_32, 4)
  }

  /** DataView.setBigInt64, big-endian: the value is taken modulo 2^64. */
  function EncodeInt64(n: int): (r: Bytes)
    ensures |r| == 8
  {
    BigEndian(n % TWO_64, 8)
  }

  /** Four bytes, most significant first, that hold the integer modulo 2^32. */
  lemma Int32Value(n: int)
    ensures |EncodeInt32(n)| == 4 && ValueOf(EncodeInt32(n)) == n % 0x1_0000_0000
  {
    assert Pow256(4) == TWO_32 by { assert Pow256(2) == 0x1_0000; assert Pow256(3) == 0x100_0000; }
    BigEndianValue(n % TWO_32, 4);
  }

  /** Eight bytes, most significant first, that hold the integer modulo 2^64. */
  lemma Int64Value(n: int)
    ensures |EncodeInt64(n)| == 8 && ValueOf(EncodeInt64(n)) == n % 0x1_0000_0000_0000_0000
  {
    assert Pow256(8) == TWO_64 by {
      assert Pow256(2) == 0x1_0000;
      assert Pow256(4) == 0x1_0000_0000;
      assert Pow256(6) == 0x1_0000_0000_0000;
    }
    BigEndianValue(n % TWO_64, 8);
  }

  lemma Int32Injective(m: int, n: int)
    requires EncodeInt32(m) == EncodeInt32(n)
    ensures m % TWO_32 == n % TWO_32
  {
    Int32Value(m);
    Int32Value(n);
  }

  lemma Int64Injective(m: int, n: int)
    requires EncodeInt64(m) == EncodeInt64(n)
    ensures m % TWO_64 == n % TWO_64
  {
    Int64Value(m);
    Int64Value(n);
  }

  /** One of the two byte strings is a prefix of the other. */
  predicate Comparable(p: Bytes, q: Bytes) {
    p <= q || q <= p
  }

  /** Unless an encoder rejects, neither result is a proper prefix of the other. */
  predicate Apart(p: Code, q: Code) {
    p.Some? && q.Some? && Comparable(p.value, q.value) ==> p == q
  }

  /** Concatenates the parts; one rejected part rejects the whole. */
  function Join(parts: seq<Code>): Code {
    if parts == [] then Some([])
    else if parts[0].None? then None
    else
      match Join(parts[1..])
      case None => None
      case Some(rest) => Some(parts[0].value + rest)
  }

  lemma {:induction false} JoinSome(parts: seq<Code>)
    ensures Join(parts).Some? <==> forall i :: 0 <= i < |parts| ==> parts[i].Some?
  {
    if parts != [] {
      JoinSome(parts[1..]);
      if forall i :: 0 <= i < |parts| ==> parts[i].Some? {
        assert forall i :: 0 <= i < |parts[1..]| ==> parts[1..][i] == parts[i + 1];
      } else if parts[0].Some? {
        var i :| 0 <= i < |parts| && parts[i].None?;
        assert parts[1..][i - 1] == parts[i];
      }
    }
  }

  /** A rejected-or-not list prefixed by its length. */
  function EncodeRepeated(parts: seq<Code>): Code {
    Join([Some(EncodeInt32(|parts|)), Join(parts)])
  }

  lemma RepeatedSome(ps: seq<Code>)
    ensures EncodeRepeated(ps).Some? <==> forall i :: 0 <= i < |ps| ==> ps[i].Some?
  {
    JoinTwo(Some(EncodeInt32(|ps|)), Join(ps));
    JoinSome(ps);
  }

  lemma JoinHead(p: Bytes, rest: seq<Code>)
    ensures Join([Some(p)] + rest) == if Join(rest).Some? then Some(p + Join(rest).value) else None
  {
    assert ([Some(p)] + rest)[1..] == rest;
  }

  lemma JoinTwo(p: Code, q: Code)
    ensures Join([p, q]) == if p.Some? && q.Some? then Some(p.value + q.value) else None
  {
    assert [p, q][1..] == [q] && [q][1..] == [];
    assert Join([q]) == q by {
      if q.Some? {
        assert q.value + [] == q.value;
      }
    }
  }

  /** A byte string behind its length. */
  function EncodeBytes(value: Bytes): Bytes {
    EncodeInt32(|value|) + value
  }

  /** Concatenation of byte strings, written the way mkByteArray does it: into a buffer, with a running offset. */
  method MkByteArray(args: seq<Bytes>) returns (merged: array<byte>)
    ensures fresh(merged)
    ensures Join(seq(|args|, i requires 0 <= i < |args| => Some(args[i]))) == Some(merged[..])
  {
    var totalLength := 0;
    for i := 0 to |args|
      invariant totalLength == |Flatten(args[..i])|
    {
      FlattenSnoc(args[..i], args[i]);
      assert args[..i + 1] == args[..i] + [args[i]];
      totalLength := totalLength + |args[i]|;
    }
    assert args[..|args|] == args;
    merged := new byte[totalLength];
    var offset := 0;
    for i := 0 to |args|
      invariant offset == |Flatten(args[..i])| <= totalLength
      invariant merged[..offset] == Flatten(args[..i])
    {
      FlattenSnoc(args[..i], args[i]);
      assert args[..i + 1] == args[..i] + [args[i]];
      FlattenPrefix(args, i + 1);
      forall j | 0 <= j < |args[i]| {
        merged[offset + j] := args[i][j];
      }
      assert merged[..offset + |args[i]|] == Flatten(args[..i]) + args[i];
      offset := offset + |args[i]|;
    }
    JoinIsFlatten(args);
    assert merged[..] == merged[..offset];
  }

  lemma {:induction false} FlattenPrefix(args: seq<Bytes>, n: nat)
    requires n <= |args|
    ensures |Flatten(args[..n])| <= |Flatten(args)|
  {
    if n > 0 {
      FlattenPrefix(args[1..], n - 1);
      assert args[..n][1..] == args[1..][..n - 1];
    }
  }

  lemma {:induction false} JoinIsFlatten(args: seq<Bytes>)
    ensures Join(seq(|args|, i requires 0 <= i < |args| => Some(args[i]))) == Some(Flatten(args))
  {
    if args != [] {
      var parts: seq<Code> := seq(|args|, i requires 0 <= i < |args| => Some(args[i]));
      JoinIsFlatten(args[1..]);
      assert parts[1..] == seq(|args[1..]|, i requires 0 <= i < |args[1..]| => Some(args[1..][i]));
    }
  }
}
