/** The standard base64 encoding of section 4 of RFC 4648, as produced by
    `Buffer.toString("base64")`. It links the registry's 392-character key
    format to the 294-byte SPKI export of a 2048-bit RSA public key. */
module Base64 {
  import Registry

  /** The value-to-character table of section 4 of RFC 4648. */
  function Symbol(v: nat): (c: char)
    requires v < 64
    ensures Registry.IsKeyChar(c)
    ensures c != '='
  {
    if v < 26 then ('A' as int + v) as char
    else if v < 52 then ('a' as int + (v - 26)) as char
    else if v < 62 then ('0' as int + (v - 52)) as char
    else if v == 62 then '+'
    else '/'
  }

  /** A full group: three bytes, 24 bits, four characters of six bits each,
      most significant bits first. */
  function Quantum(x: bv8, y: bv8, z: bv8): (r: string)
    ensures |r| == 4
    ensures forall i :: 0 <= i < 4 ==> Registry.IsKeyChar(r[i])
  {
    [Symbol(x as int / 4), Symbol(x as int % 4 * 16 + y as int / 16),
     Symbol(y as int % 16 * 4 + z as int / 64), Symbol(z as int % 64)]
  }

  /** A final group of one or two bytes, completed with zero bits and `=` padding. */
  function FinalQuantum(tail: seq<bv8>): (r: string)
    requires 1 <= |tail| <= 2
    ensures |r| == 4
    ensures forall i :: 0 <= i < 4 ==> Registry.IsKeyChar(r[i]) || r[i] == '='
    ensures r[3] == '='
  {
    var x := tail[0] as int;
    if |tail| == 1 then [Symbol(x / 4), Symbol(x % 4 * 16), '=', '=']
    else
      var y := tail[1] as int;
      [Symbol(x / 4), Symbol(x % 4 * 16 + y / 16), Symbol(y % 16 * 4), '=']
  }

  /** Removing one full group of three bytes removes one group of four characters
      and leaves the length of the final group unchanged. */
  lemma GroupCount(n: nat)
    requires n >= 3
    ensures (n - 3 + 2) / 3 + 1 == (n + 2) / 3
    ensures (n - 3) % 3 == n % 3
  {
  }

  /** The whole encoding: full groups left to right, then the padded final group. */
  function Encode(b: seq<bv8>): (r: string)
    ensures |r| == 4 * ((|b| + 2) / 3)
    ensures forall i :: 0 <= i < |r| ==> Registry.IsKeyChar(r[i]) || r[i] == '='
    ensures |b| % 3 == 0 ==> forall i :: 0 <= i < |r| ==> Registry.IsKeyChar(r[i])
    ensures |b| % 3 != 0 ==> r[|r| - 1] == '='
    decreases |b|
  {
    if |b| == 0 then []
    else if |b| < 3 then FinalQuantum(b)
    else
      var head := Quantum(b[0], b[1], b[2]);
      var tail := b[3..];
      assert |tail| == |b| - 3;
      GroupCount(|b|);
      var rest := Encode(tail);
      var r := head + rest;
      assert forall i :: 0 <= i < 4 ==> r[i] == head[i];
      assert forall i :: 4 <= i < |r| ==> r[i] == rest[i - 4];
      r
  }

  /** A 294-byte buffer encodes to text the registry's key-format check accepts. */
  lemma EncodedSpkiPassesKeyFormat(spki: seq<bv8>)
    requires |spki| == 294
    ensures Registry.ValidKey(Encode(spki))
  {
  }
}
